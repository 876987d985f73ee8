/** The membership rule of `msrv_violations` (xtask/src/gates.rs), said of the positions of jobs,
    check lines and crate names. */
module MsrvMembership {
  import opened MsrvJobs
  import opened MsrvRule

  /** The `n`th crate on the `i`th check line of the job. */
  ghost predicate NamedAt(job: MsrvJob, i: int, n: int, crate: string) {
    0 <= i < |job.checks| && 0 <= n < |job.checks[i].crates| && job.checks[i].crates[n] == crate
  }

  /** A crate on any check line of a job is named in it. */
  ghost predicate NamedIn(jobs: seq<MsrvJob>, k: nat, crate: string) {
    k < |jobs| && exists i, n :: NamedAt(jobs[k], i, n, crate)
  }

  ghost predicate NamedAtFloor(jobs: seq<MsrvJob>, k: nat, crate: string, toolchain: string) {
    NamedIn(jobs, k, crate) && jobs[k].toolchain == toolchain
  }

  ghost predicate CheckedAs(job: MsrvJob, crate: string, allTargets: bool) {
    forall i, n :: NamedAt(job, i, n, crate) ==> job.checks[i].allTargets == allTargets
  }

  /** The first job of the tier that names the crate checks it in one way throughout. */
  ghost predicate TierKept(jobs: seq<MsrvJob>, crate: string, toolchain: string, allTargets: bool) {
    exists k: nat ::
      && NamedAtFloor(jobs, k, crate, toolchain)
      && (forall m: nat :: m < k ==> !NamedAtFloor(jobs, m, crate, toolchain))
      && CheckedAs(jobs[k], crate, allTargets)
  }

  ghost predicate OneJobAtFloor(jobs: seq<MsrvJob>, crate: string, toolchain: string) {
    exists k: nat ::
      NamedAtFloor(jobs, k, crate, toolchain) && forall m: nat :: NamedAtFloor(jobs, m, crate, toolchain) ==> m == k
  }

  ghost predicate OneJob(jobs: seq<MsrvJob>, crate: string) {
    exists k: nat :: NamedIn(jobs, k, crate) && forall m: nat :: NamedIn(jobs, m, crate) ==> m == k
  }

  ghost predicate CrateKept(jobs: seq<MsrvJob>, crate: string, floor: string) {
    && OneJobAtFloor(jobs, crate, floor)
    && if crate == "bathy-query" then
         !OneJob(jobs, crate) && TierKept(jobs, crate, "1.88", false) && TierKept(jobs, crate, "1.95", true)
       else OneJob(jobs, crate)
  }

  ghost predicate JobKept(jobs: seq<MsrvJob>, k: nat, floors: seq<CrateFloor>) {
    && k < |jobs| && jobs[k].removesPin
    && (exists f :: 0 <= f < |floors| && floors[f].floor == jobs[k].toolchain)
    && forall crate :: NamedIn(jobs, k, crate) ==> exists f :: 0 <= f < |floors| && floors[f].name == crate
  }

  lemma NamesSpelled(jobs: seq<MsrvJob>, k: nat, crate: string)
    ensures Holds(jobs, NamesIt(crate), k) <==> NamedIn(jobs, k, crate)
  {
    if k < |jobs| {
      var job := jobs[k];
      if Names(job, crate) {
        var c :| c in job.checks && crate in c.crates;
        var i :| 0 <= i < |job.checks| && job.checks[i] == c;
        var n :| 0 <= n < |c.crates| && c.crates[n] == crate;
        assert NamedAt(job, i, n, crate);
      }
      if i, n :| NamedAt(job, i, n, crate) {
        assert job.checks[i] in job.checks;
      }
    }
  }

  lemma NamesAtSpelled(jobs: seq<MsrvJob>, k: nat, crate: string, toolchain: string)
    ensures Holds(jobs, NamesItAt(crate, toolchain), k) <==> NamedAtFloor(jobs, k, crate, toolchain)
  {
    hide Names, NamedIn;
    NamesSpelled(jobs, k, crate);
  }

  lemma DisposedSpelled(job: MsrvJob, crate: string, tier: Tier)
    ensures Disposed(job, crate, tier) <==> CheckedAs(job, crate, tier.allTargets)
  {
    if Disposed(job, crate, tier) {
      forall i, n | NamedAt(job, i, n, crate)
        ensures job.checks[i].allTargets == tier.allTargets
      {
        assert job.checks[i] in job.checks;
      }
    }
    if CheckedAs(job, crate, tier.allTargets) {
      forall c | c in job.checks && crate in c.crates
        ensures c.allTargets == tier.allTargets
      {
        var i :| 0 <= i < |job.checks| && job.checks[i] == c;
        var n :| 0 <= n < |c.crates| && c.crates[n] == crate;
        assert NamedAt(job, i, n, crate);
      }
    }
  }

  lemma TierSpelled(jobs: seq<MsrvJob>, crate: string, tier: Tier)
    ensures TierClean(jobs, crate, tier) <==> TierKept(jobs, crate, tier.toolchain, tier.allTargets)
  {
    assert forall k: nat :: Holds(jobs, NamesItAt(crate, tier.toolchain), k) ==> k < |jobs|;
    hide Disposed, CheckedAs, NamedIn, NamedAtFloor, Holds;
    forall k: nat
      ensures Holds(jobs, NamesItAt(crate, tier.toolchain), k) <==> NamedAtFloor(jobs, k, crate, tier.toolchain)
      ensures k < |jobs| ==> (Disposed(jobs[k], crate, tier) <==> CheckedAs(jobs[k], crate, tier.allTargets))
    {
      NamesAtSpelled(jobs, k, crate, tier.toolchain);
      if k < |jobs| {
        DisposedSpelled(jobs[k], crate, tier);
      }
    }
  }

  lemma OnceSpelled(jobs: seq<MsrvJob>, crate: string, toolchain: string)
    ensures Once(jobs, NamesIt(crate), 0) <==> OneJob(jobs, crate)
    ensures Once(jobs, NamesItAt(crate, toolchain), 0) <==> OneJobAtFloor(jobs, crate, toolchain)
  {
    hide Holds, NamedIn, NamedAtFloor;
    forall k: nat
      ensures Holds(jobs, NamesIt(crate), k) <==> NamedIn(jobs, k, crate)
      ensures Holds(jobs, NamesItAt(crate, toolchain), k) <==> NamedAtFloor(jobs, k, crate, toolchain)
    {
      NamesSpelled(jobs, k, crate);
      NamesAtSpelled(jobs, k, crate, toolchain);
    }
  }

  lemma CrateSpelled(jobs: seq<MsrvJob>, f: CrateFloor)
    ensures CrateClean(jobs, f) <==> CrateKept(jobs, f.name, f.floor)
  {
    hide Once, OneJob, OneJobAtFloor, TierClean, TierKept;
    OnceSpelled(jobs, f.name, f.floor);
    TierSpelled(jobs, f.name, Tier("1.88", false));
    TierSpelled(jobs, f.name, Tier("1.95", true));
    assert f.name in DUAL_TIER <==> f.name == "bathy-query";
    assert f.name in DUAL_TIER ==> DUAL_TIER[f.name] == [Tier("1.88", false), Tier("1.95", true)];
  }

  lemma JobSpelled(jobs: seq<MsrvJob>, k: nat, floors: seq<CrateFloor>)
    requires k < |jobs|
    ensures JobClean(jobs[k], floors) <==> JobKept(jobs, k, floors)
  {
    forall name
      ensures Declares(floors, name) <==> exists f :: 0 <= f < |floors| && floors[f].floor == name
      ensures Known(floors, name) <==> exists f :: 0 <= f < |floors| && floors[f].name == name
      ensures Names(jobs[k], name) <==> NamedIn(jobs, k, name)
    {
      FloorsSpelled(floors, name);
      NamesSpelled(jobs, k, name);
    }
    assert (forall c, n :: c in jobs[k].checks && n in c.crates ==> Known(floors, n)) <==>
      forall n :: Names(jobs[k], n) ==> Known(floors, n);
    hide Known, Declares, NamedIn;
  }

  lemma FloorsSpelled(floors: seq<CrateFloor>, name: string)
    ensures Declares(floors, name) <==> exists f :: 0 <= f < |floors| && floors[f].floor == name
    ensures Known(floors, name) <==> exists f :: 0 <= f < |floors| && floors[f].name == name
  {
    assert forall f :: 0 <= f < |floors| ==> floors[f] in floors;
  }

  /** The report is empty exactly when every job removes the pin, is at a declared floor and names
      declared crates; every crate is named in one job at its floor; and in no other job, except
      `bathy-query`, which at 1.88 is checked without and at 1.95 with all targets. */
  lemma CleanSpelled(jobs: seq<MsrvJob>, floors: seq<CrateFloor>)
    ensures Clean(jobs, floors) <==>
      && jobs != [] && floors != []
      && (forall k :: 0 <= k < |jobs| ==> JobKept(jobs, k, floors))
      && forall f :: 0 <= f < |floors| ==> CrateKept(jobs, floors[f].name, floors[f].floor)
  {
    hide JobClean, JobKept, CrateClean, CrateKept;
    forall k | 0 <= k < |jobs|
      ensures jobs[k] in jobs && (JobClean(jobs[k], floors) <==> JobKept(jobs, k, floors))
    {
      JobSpelled(jobs, k, floors);
    }
    forall f | 0 <= f < |floors|
      ensures floors[f] in floors
      ensures CrateClean(jobs, floors[f]) <==> CrateKept(jobs, floors[f].name, floors[f].floor)
    {
      CrateSpelled(jobs, floors[f]);
    }
  }

  lemma {:induction false} PickCounts(jobs: seq<MsrvJob>, p: MsrvJob -> bool, i: nat)
    ensures |Pick(jobs, p, i)| == |set k | i <= k < |jobs| && Holds(jobs, p, k)|
    decreases |jobs| - i
  {
    var all := set k | i <= k < |jobs| && Holds(jobs, p, k);
    if i >= |jobs| {
      assert all == {};
    } else {
      PickCounts(jobs, p, i + 1);
      var later := set k | i + 1 <= k < |jobs| && Holds(jobs, p, k);
      assert all == if p(jobs[i]) then {i} + later else later;
    }
  }

  /** The numbers in a report are numbers of jobs. */
  lemma JobsAreCounted(jobs: seq<MsrvJob>, crate: string, toolchain: string)
    ensures |Naming(jobs, crate)| == |set k | 0 <= k < |jobs| && NamedIn(jobs, k, crate)|
    ensures |Pinned(Naming(jobs, crate), toolchain)| ==
      |set k | 0 <= k < |jobs| && NamedAtFloor(jobs, k, crate, toolchain)|
  {
    PickCounts(jobs, NamesIt(crate), 0);
    PickTwice(jobs, crate, toolchain, 0);
    PickCounts(jobs, NamesItAt(crate, toolchain), 0);
    hide Holds, NamedIn, NamedAtFloor;
    forall k: nat
      ensures Holds(jobs, NamesIt(crate), k) <==> NamedIn(jobs, k, crate)
      ensures Holds(jobs, NamesItAt(crate, toolchain), k) <==> NamedAtFloor(jobs, k, crate, toolchain)
    {
      NamesSpelled(jobs, k, crate);
      NamesAtSpelled(jobs, k, crate, toolchain);
    }
    assert (set k | 0 <= k < |jobs| && Holds(jobs, NamesIt(crate), k)) ==
      set k | 0 <= k < |jobs| && NamedIn(jobs, k, crate);
    assert (set k | 0 <= k < |jobs| && Holds(jobs, NamesItAt(crate, toolchain), k)) ==
      set k | 0 <= k < |jobs| && NamedAtFloor(jobs, k, crate, toolchain);
  }
}
