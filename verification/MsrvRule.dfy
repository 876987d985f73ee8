/** `msrv_violations` of xtask/src/gates.rs: which crate is checked by which floor job. The
    messages are data here; the rule is proved equivalent to a declarative one. */
module MsrvRule {
  import opened MsrvJobs

  /** A workspace crate and the compiler floor it declares. */
  datatype CrateFloor = CrateFloor(name: string, floor: string, manifest: string)

  datatype Tier = Tier(toolchain: string, allTargets: bool)

  /** The crates deliberately named in two jobs, with the disposition of each. */
  const DUAL_TIER: map<string, seq<Tier>> := map["bathy-query" := [Tier("1.88", false), Tier("1.95", true)]]

  datatype Violation =
    | NoJobs
    | NoFloors
    | PinKept(job: MsrvJob)
    | FloorNobodyDeclares(job: MsrvJob)
    | UnknownCrate(job: MsrvJob, line: nat, named: string)
    | InNoJob(crate: CrateFloor)
    | NotOnceAtItsFloor(crate: CrateFloor, jobs: nat)
    | InSeveralJobs(crate: CrateFloor, jobs: nat)
    | TierMissing(crate: CrateFloor, tier: Tier)
    | TierMismatch(crate: CrateFloor, tier: Tier, line: nat)
    | DeadException(crate: CrateFloor)

  predicate Names(job: MsrvJob, crate: string) {
    exists c :: c in job.checks && crate in c.crates
  }

  predicate Declares(floors: seq<CrateFloor>, floor: string) {
    exists f :: f in floors && f.floor == floor
  }

  predicate Known(floors: seq<CrateFloor>, name: string) {
    exists f :: f in floors && f.name == name
  }

  /** The jobs from position `i` on that satisfy `p`. */
  function Pick(jobs: seq<MsrvJob>, p: MsrvJob -> bool, i: nat): seq<MsrvJob>
    decreases |jobs| - i
  {
    if i >= |jobs| then []
    else if p(jobs[i]) then [jobs[i]] + Pick(jobs, p, i + 1)
    else Pick(jobs, p, i + 1)
  }

  function NamesIt(crate: string): MsrvJob -> bool {
    (job: MsrvJob) => Names(job, crate)
  }

  function PinnedTo(toolchain: string): MsrvJob -> bool {
    (job: MsrvJob) => job.toolchain == toolchain
  }

  function Naming(jobs: seq<MsrvJob>, crate: string): seq<MsrvJob> {
    Pick(jobs, NamesIt(crate), 0)
  }

  function Pinned(jobs: seq<MsrvJob>, toolchain: string): seq<MsrvJob> {
    Pick(jobs, PinnedTo(toolchain), 0)
  }

  // ---- The declarative rule ------------------------------------------------------------

  ghost predicate JobClean(job: MsrvJob, floors: seq<CrateFloor>) {
    && job.removesPin
    && Declares(floors, job.toolchain)
    && forall c, n :: c in job.checks && n in c.crates ==> Known(floors, n)
  }

  /** Job `k` satisfies `p`. */
  ghost predicate Holds(jobs: seq<MsrvJob>, p: MsrvJob -> bool, k: nat) {
    k < |jobs| && p(jobs[k])
  }

  /** Exactly one job from `i` on satisfies `p`. */
  ghost predicate Once(jobs: seq<MsrvJob>, p: MsrvJob -> bool, i: nat) {
    exists k: nat :: i <= k && Holds(jobs, p, k) && forall m: nat :: i <= m && Holds(jobs, p, m) ==> m == k
  }

  /** Job `k` is the first from `i` on that satisfies `p`. */
  ghost predicate First(jobs: seq<MsrvJob>, p: MsrvJob -> bool, i: nat, k: nat) {
    i <= k && Holds(jobs, p, k) && forall m: nat :: i <= m < k ==> !Holds(jobs, p, m)
  }

  function NamesItAt(crate: string, toolchain: string): MsrvJob -> bool {
    (job: MsrvJob) => Names(job, crate) && job.toolchain == toolchain
  }

  /** Every check of the crate in this job has the disposition of the tier. */
  ghost predicate Disposed(job: MsrvJob, crate: string, tier: Tier) {
    forall c :: c in job.checks && crate in c.crates ==> c.allTargets == tier.allTargets
  }

  /** The first job pinned to the tier that names the crate checks it as declared. */
  ghost predicate TierClean(jobs: seq<MsrvJob>, crate: string, tier: Tier) {
    exists k: nat :: First(jobs, NamesItAt(crate, tier.toolchain), 0, k) && Disposed(jobs[k], crate, tier)
  }

  /** Exactly one job pinned to the crate's floor names it; and exactly one job at all, unless
      it is a declared exception, which at least two jobs name, each tier as declared. */
  ghost predicate CrateClean(jobs: seq<MsrvJob>, f: CrateFloor) {
    && Once(jobs, NamesItAt(f.name, f.floor), 0)
    && if f.name in DUAL_TIER then
         !Once(jobs, NamesIt(f.name), 0) && forall t :: t in DUAL_TIER[f.name] ==> TierClean(jobs, f.name, t)
       else Once(jobs, NamesIt(f.name), 0)
  }

  ghost predicate Clean(jobs: seq<MsrvJob>, floors: seq<CrateFloor>) {
    && jobs != [] && floors != []
    && (forall j :: j in jobs ==> JobClean(j, floors))
    && forall f :: f in floors ==> CrateClean(jobs, f)
  }

  // ---- What each violation says --------------------------------------------------------

  /** `v` is true of the job, with only `checks` of it looked at. */
  ghost predicate JobFault(v: Violation, job: MsrvJob, checks: seq<MsrvCheck>, floors: seq<CrateFloor>) {
    match v
    case PinKept(j) => j == job && !job.removesPin
    case FloorNobodyDeclares(j) => j == job && !Declares(floors, job.toolchain)
    case UnknownCrate(j, line, named) => j == job && !Known(floors, named) && NamedOn(checks, line, named)
    case _ => false
  }

  ghost predicate NamedOn(checks: seq<MsrvCheck>, line: nat, named: string) {
    exists c :: c in checks && c.line == line && named in c.crates
  }

  /** `v` is true of the tier, with only `checks` of its first job looked at. */
  ghost predicate TierFault(v: Violation, f: CrateFloor, tier: Tier, pinned: seq<MsrvJob>, checks: seq<MsrvCheck>) {
    match v
    case TierMissing(c, t) => c == f && t == tier && pinned == []
    case TierMismatch(c, t, line) => c == f && t == tier && pinned != [] && MismatchedOn(checks, f.name, tier, line)
    case _ => false
  }

  ghost predicate MismatchedOn(checks: seq<MsrvCheck>, crate: string, tier: Tier, line: nat) {
    exists c :: c in checks && c.line == line && crate in c.crates && c.allTargets != tier.allTargets
  }

  function FirstChecks(pinned: seq<MsrvJob>): seq<MsrvCheck> {
    if pinned == [] then [] else pinned[0].checks
  }

  /** `v` is true of one of the tiers the crate is declared at. */
  ghost predicate TiersFault(v: Violation, f: CrateFloor, appearances: seq<MsrvJob>, tiers: seq<Tier>) {
    exists t :: t in tiers &&
      TierFault(v, f, t, Pinned(appearances, t.toolchain), FirstChecks(Pinned(appearances, t.toolchain)))
  }

  /** `v` is true of the crate; a crate in no job is reported for that alone. */
  ghost predicate CrateFault(v: Violation, jobs: seq<MsrvJob>, f: CrateFloor) {
    var appearances := Naming(jobs, f.name);
    match v
    case InNoJob(c) => c == f && appearances == []
    case NotOnceAtItsFloor(c, n) =>
      c == f && appearances != [] && n == |Pinned(appearances, f.floor)| && n != 1
    case InSeveralJobs(c, n) => c == f && n == |appearances| && n > 1 && f.name !in DUAL_TIER
    case DeadException(c) => c == f && |appearances| == 1 && f.name in DUAL_TIER
    case _ => |appearances| > 1 && f.name in DUAL_TIER && TiersFault(v, f, appearances, DUAL_TIER[f.name])
  }

  /** `v` must be reported; without jobs or floors nothing else is. */
  ghost predicate MustReport(v: Violation, jobs: seq<MsrvJob>, floors: seq<CrateFloor>) {
    if jobs == [] then v == NoJobs
    else if floors == [] then v == NoFloors
    else SomeJobFault(v, jobs, floors) || SomeCrateFault(v, jobs, floors)
  }

  ghost predicate SomeJobFault(v: Violation, jobs: seq<MsrvJob>, floors: seq<CrateFloor>) {
    exists j :: j in jobs && JobFault(v, j, j.checks, floors)
  }

  ghost predicate SomeCrateFault(v: Violation, jobs: seq<MsrvJob>, floors: seq<CrateFloor>) {
    exists f :: f in floors && CrateFault(v, jobs, f)
  }

  // ---- The method ----------------------------------------------------------------------

  method CheckJob(job: MsrvJob, floors: seq<CrateFloor>) returns (found: seq<Violation>)
    ensures forall v :: v in found <==> JobFault(v, job, job.checks, floors)
  {
    found := [];
    if !job.removesPin {
      found := found + [PinKept(job)];
    }
    if !Declares(floors, job.toolchain) {
      found := found + [FloorNobodyDeclares(job)];
    }
    for i := 0 to |job.checks|
      invariant forall v :: v in found <==> JobFault(v, job, job.checks[..i], floors)
    {
      assert job.checks[..i + 1] == job.checks[..i] + [job.checks[i]];
      var more := CheckNames(job, job.checks[i], floors);
      found := found + more;
    }
    assert job.checks[..|job.checks|] == job.checks;
  }

  method CheckNames(job: MsrvJob, check: MsrvCheck, floors: seq<CrateFloor>) returns (found: seq<Violation>)
    ensures forall v :: v in found <==> v.UnknownCrate? && JobFault(v, job, [check], floors)
  {
    hide Known;
    found := [];
    for k := 0 to |check.crates|
      invariant forall v :: v in found <==>
        && v.UnknownCrate? && v.job == job && v.line == check.line
        && v.named in check.crates[..k] && !Known(floors, v.named)
    {
      assert check.crates[..k + 1] == check.crates[..k] + [check.crates[k]];
      if !Known(floors, check.crates[k]) {
        found := found + [UnknownCrate(job, check.line, check.crates[k])];
      }
    }
    assert check.crates[..|check.crates|] == check.crates;
  }

  method CheckTier(crate: CrateFloor, appearances: seq<MsrvJob>, tier: Tier) returns (found: seq<Violation>)
    ensures var pinned := Pinned(appearances, tier.toolchain);
      forall v :: v in found <==> TierFault(v, crate, tier, pinned, FirstChecks(pinned))
  {
    hide Pinned;
    found := [];
    var matching := Pinned(appearances, tier.toolchain);
    if matching == [] {
      return [TierMissing(crate, tier)];
    }
    var checks := matching[0].checks;
    for i := 0 to |checks|
      invariant forall v :: v in found <==> TierFault(v, crate, tier, matching, checks[..i])
    {
      assert checks[..i + 1] == checks[..i] + [checks[i]];
      if crate.name in checks[i].crates && checks[i].allTargets != tier.allTargets {
        found := found + [TierMismatch(crate, tier, checks[i].line)];
      }
    }
    assert checks[..|checks|] == checks;
  }

  /** `CrateClean` in terms of how many jobs were picked out, as the source has it. */
  ghost predicate CountsClean(jobs: seq<MsrvJob>, f: CrateFloor) {
    var appearances := Naming(jobs, f.name);
    && appearances != []
    && |Pinned(appearances, f.floor)| == 1
    && if |appearances| > 1 then
         f.name in DUAL_TIER && forall t :: t in DUAL_TIER[f.name] ==>
           Pinned(appearances, t.toolchain) != [] && Disposed(Pinned(appearances, t.toolchain)[0], f.name, t)
       else f.name !in DUAL_TIER
  }

  // ---- Counting and positions ----------------------------------------------------------

  lemma {:induction false} PickFirst(jobs: seq<MsrvJob>, p: MsrvJob -> bool, i: nat) returns (k: nat)
    requires Pick(jobs, p, i) != []
    ensures First(jobs, p, i, k) && Pick(jobs, p, i)[0] == jobs[k]
    decreases |jobs| - i
  {
    if p(jobs[i]) {
      k := i;
    } else {
      k := PickFirst(jobs, p, i + 1);
    }
  }

  lemma {:induction false} FirstIsPicked(jobs: seq<MsrvJob>, p: MsrvJob -> bool, i: nat, k: nat)
    requires First(jobs, p, i, k)
    ensures Pick(jobs, p, i) != [] && Pick(jobs, p, i)[0] == jobs[k]
    decreases |jobs| - i
  {
    if i < k {
      assert !Holds(jobs, p, i);
      FirstIsPicked(jobs, p, i + 1, k);
    }
  }

  lemma {:induction false} PickIsOnce(jobs: seq<MsrvJob>, p: MsrvJob -> bool, i: nat)
    ensures |Pick(jobs, p, i)| == 1 <==> Once(jobs, p, i)
    decreases |jobs| - i
  {
    if i < |jobs| {
      var rest := Pick(jobs, p, i + 1);
      if p(jobs[i]) {
        assert Holds(jobs, p, i);
        if rest != [] {
          var k := PickFirst(jobs, p, i + 1);
        } else {
          forall m: nat | i < m
            ensures !Holds(jobs, p, m)
          {
            if Holds(jobs, p, m) {
              var first := FirstUpTo(jobs, p, i + 1, m);
              FirstIsPicked(jobs, p, i + 1, first);
            }
          }
        }
      } else {
        PickIsOnce(jobs, p, i + 1);
        assert forall m: nat :: i <= m && Holds(jobs, p, m) ==> i + 1 <= m;
      }
    }
  }

  lemma {:induction false} FirstUpTo(jobs: seq<MsrvJob>, p: MsrvJob -> bool, i: nat, m: nat) returns (k: nat)
    requires i <= m && Holds(jobs, p, m)
    ensures First(jobs, p, i, k)
    decreases m - i
  {
    if Holds(jobs, p, i) {
      k := i;
    } else {
      k := FirstUpTo(jobs, p, i + 1, m);
    }
  }

  lemma {:induction false} PickFromTail(jobs: seq<MsrvJob>, p: MsrvJob -> bool, i: nat)
    requires jobs != []
    ensures Pick(jobs, p, i + 1) == Pick(jobs[1..], p, i)
    decreases |jobs| - i
  {
    if i + 1 < |jobs| {
      PickFromTail(jobs, p, i + 1);
    }
  }

  /** Filtering by crate and then by toolchain is filtering by both. */
  lemma {:induction false} PickTwice(jobs: seq<MsrvJob>, crate: string, toolchain: string, i: nat)
    ensures Pinned(Pick(jobs, NamesIt(crate), i), toolchain) == Pick(jobs, NamesItAt(crate, toolchain), i)
    decreases |jobs| - i
  {
    if i < |jobs| {
      var rest := Pick(jobs, NamesIt(crate), i + 1);
      PickTwice(jobs, crate, toolchain, i + 1);
      if Names(jobs[i], crate) {
        PickFromTail([jobs[i]] + rest, PinnedTo(toolchain), 0);
        assert ([jobs[i]] + rest)[1..] == rest;
      }
    }
  }

  lemma TierDecides(jobs: seq<MsrvJob>, crate: string, tier: Tier)
    ensures var pinned := Pinned(Naming(jobs, crate), tier.toolchain);
      TierClean(jobs, crate, tier) <==> pinned != [] && Disposed(pinned[0], crate, tier)
  {
    hide Disposed;
    PickTwice(jobs, crate, tier.toolchain, 0);
    var p := NamesItAt(crate, tier.toolchain);
    if Pick(jobs, p, 0) != [] {
      var first := PickFirst(jobs, p, 0);
    }
    forall k: nat | First(jobs, p, 0, k)
      ensures Pick(jobs, p, 0) != [] && Pick(jobs, p, 0)[0] == jobs[k]
    {
      FirstIsPicked(jobs, p, 0, k);
    }
  }

  lemma CountsDecide(jobs: seq<MsrvJob>, f: CrateFloor)
    ensures CountsClean(jobs, f) <==> CrateClean(jobs, f)
  {
    assert |Pinned(Naming(jobs, f.name), f.floor)| == 1 ==> Naming(jobs, f.name) != [];
    hide Disposed, TierClean, Once, Pick;
    PickTwice(jobs, f.name, f.floor, 0);
    PickIsOnce(jobs, NamesItAt(f.name, f.floor), 0);
    PickIsOnce(jobs, NamesIt(f.name), 0);
    forall t: Tier
      ensures var pinned := Pinned(Naming(jobs, f.name), t.toolchain);
        TierClean(jobs, f.name, t) <==> pinned != [] && Disposed(pinned[0], f.name, t)
    {
      TierDecides(jobs, f.name, t);
    }
  }

  method CheckCrate(jobs: seq<MsrvJob>, f: CrateFloor) returns (found: seq<Violation>)
    ensures forall v :: v in found <==> CrateFault(v, jobs, f)
  {
    hide Naming, Pinned, TiersFault;
    found := [];
    var appearances := Naming(jobs, f.name);
    if appearances == [] {
      return [InNoJob(f)];
    }
    var atItsFloor := Pinned(appearances, f.floor);
    if |atItsFloor| != 1 {
      found := found + [NotOnceAtItsFloor(f, |atItsFloor|)];
    }
    if |appearances| > 1 {
      if f.name !in DUAL_TIER {
        found := found + [InSeveralJobs(f, |appearances|)];
      } else {
        var more := CheckTiers(f, appearances, DUAL_TIER[f.name]);
        found := found + more;
      }
    } else if f.name in DUAL_TIER {
      found := found + [DeadException(f)];
    }
  }

  method CheckTiers(f: CrateFloor, appearances: seq<MsrvJob>, tiers: seq<Tier>) returns (found: seq<Violation>)
    ensures forall v :: v in found <==> TiersFault(v, f, appearances, tiers)
    ensures forall v :: v in found ==> v.TierMissing? || v.TierMismatch?
  {
    hide Pinned, MismatchedOn;
    found := [];
    for i := 0 to |tiers|
      invariant forall v :: v in found <==> TiersFault(v, f, appearances, tiers[..i])
    {
      assert tiers[..i + 1] == tiers[..i] + [tiers[i]];
      var more := CheckTier(f, appearances, tiers[i]);
      found := found + more;
    }
    assert tiers[..|tiers|] == tiers;
  }

  /** The gate reports exactly what must be reported: nothing, exactly when the declarative rule
      holds. */
  method MsrvViolations(jobs: seq<MsrvJob>, floors: seq<CrateFloor>) returns (found: seq<Violation>)
    ensures forall v :: v in found <==> MustReport(v, jobs, floors)
    ensures found == [] <==> Clean(jobs, floors)
  {
    hide JobFault, CrateFault, Clean;
    CleanExactlyWhenNothingToReport(jobs, floors);
    found := [];
    if jobs == [] {
      assert MustReport(NoJobs, jobs, floors);
      return [NoJobs];
    }
    if floors == [] {
      assert MustReport(NoFloors, jobs, floors);
      return [NoFloors];
    }
    for i := 0 to |jobs|
      invariant forall v :: v in found <==> SomeJobFault(v, jobs[..i], floors)
    {
      assert jobs[..i + 1] == jobs[..i] + [jobs[i]];
      var more := CheckJob(jobs[i], floors);
      found := found + more;
    }
    assert jobs[..|jobs|] == jobs;
    for i := 0 to |floors|
      invariant forall v :: v in found <==> SomeJobFault(v, jobs, floors) || SomeCrateFault(v, jobs, floors[..i])
    {
      assert floors[..i + 1] == floors[..i] + [floors[i]];
      var more := CheckCrate(jobs, floors[i]);
      found := found + more;
    }
    assert floors[..|floors|] == floors;
    assert found != [] ==> found[0] in found;
  }

  lemma JobCleanMeansNoFault(job: MsrvJob, floors: seq<CrateFloor>)
    ensures JobClean(job, floors) <==> forall v :: !JobFault(v, job, job.checks, floors)
  {
    assert !job.removesPin ==> JobFault(PinKept(job), job, job.checks, floors);
    assert !Declares(floors, job.toolchain) ==> JobFault(FloorNobodyDeclares(job), job, job.checks, floors);
    forall c, n | c in job.checks && n in c.crates && !Known(floors, n)
      ensures JobFault(UnknownCrate(job, c.line, n), job, job.checks, floors)
    {
    }
  }

  ghost predicate FaultFree(f: CrateFloor, tier: Tier, pinned: seq<MsrvJob>) {
    forall v :: !TierFault(v, f, tier, pinned, FirstChecks(pinned))
  }

  lemma TierCleanMeansNoFault(f: CrateFloor, tier: Tier, pinned: seq<MsrvJob>)
    ensures pinned != [] && Disposed(pinned[0], f.name, tier) <==> FaultFree(f, tier, pinned)
  {
    if FaultFree(f, tier, pinned) {
      assert !TierFault(TierMissing(f, tier), f, tier, pinned, FirstChecks(pinned));
      forall c | c in pinned[0].checks && f.name in c.crates
        ensures c.allTargets == tier.allTargets
      {
        if c.allTargets != tier.allTargets {
          assert MismatchedOn(FirstChecks(pinned), f.name, tier, c.line);
          assert TierFault(TierMismatch(f, tier, c.line), f, tier, pinned, FirstChecks(pinned));
        }
      }
    }
  }

  lemma TiersCleanMeansNoFault(f: CrateFloor, appearances: seq<MsrvJob>, tiers: seq<Tier>)
    ensures (forall v :: !TiersFault(v, f, appearances, tiers)) <==>
      forall t :: t in tiers ==>
        Pinned(appearances, t.toolchain) != [] && Disposed(Pinned(appearances, t.toolchain)[0], f.name, t)
  {
    hide Pinned, Disposed, TierFault, FirstChecks;
    forall t: Tier
      ensures var pinned := Pinned(appearances, t.toolchain);
        pinned != [] && Disposed(pinned[0], f.name, t) <==> FaultFree(f, t, pinned)
    {
      TierCleanMeansNoFault(f, t, Pinned(appearances, t.toolchain));
    }
    if forall v :: !TiersFault(v, f, appearances, tiers) {
      forall t | t in tiers
        ensures FaultFree(f, t, Pinned(appearances, t.toolchain))
      {
        var pinned := Pinned(appearances, t.toolchain);
        forall v
          ensures !TierFault(v, f, t, pinned, FirstChecks(pinned))
        {
          assert !TiersFault(v, f, appearances, tiers);
        }
      }
    }
  }

  lemma CrateCleanMeansNoFault(jobs: seq<MsrvJob>, f: CrateFloor)
    ensures CrateClean(jobs, f) <==> forall v :: !CrateFault(v, jobs, f)
  {
    var appearances := Naming(jobs, f.name);
    assert forall v, tiers :: TiersFault(v, f, appearances, tiers) ==> v.TierMissing? || v.TierMismatch?;
    hide CrateClean, Naming, Pinned, Disposed, TiersFault;
    CountsDecide(jobs, f);
    if f.name in DUAL_TIER {
      TiersCleanMeansNoFault(f, appearances, DUAL_TIER[f.name]);
    }
    assert appearances == [] ==> CrateFault(InNoJob(f), jobs, f);
    var n := |Pinned(appearances, f.floor)|;
    assert appearances != [] && n != 1 ==> CrateFault(NotOnceAtItsFloor(f, n), jobs, f);
    assert |appearances| > 1 && f.name !in DUAL_TIER ==> CrateFault(InSeveralJobs(f, |appearances|), jobs, f);
    assert |appearances| == 1 && f.name in DUAL_TIER ==> CrateFault(DeadException(f), jobs, f);
    if |appearances| > 1 && f.name in DUAL_TIER {
      forall v | TiersFault(v, f, appearances, DUAL_TIER[f.name])
        ensures CrateFault(v, jobs, f)
      {
      }
    }
  }

  /** The declarative rule holds exactly when no violation is true. */
  lemma CleanExactlyWhenNothingToReport(jobs: seq<MsrvJob>, floors: seq<CrateFloor>)
    ensures Clean(jobs, floors) <==> forall v :: !MustReport(v, jobs, floors)
  {
    hide JobFault, CrateFault, JobClean, CrateClean;
    if jobs == [] {
      assert MustReport(NoJobs, jobs, floors);
    } else if floors == [] {
      assert MustReport(NoFloors, jobs, floors);
    } else {
      JobsCleanMeansNoFault(jobs, floors);
      CratesCleanMeansNoFault(jobs, floors);
      hide SomeJobFault, SomeCrateFault;
      if forall v :: !MustReport(v, jobs, floors) {
        forall v
          ensures !SomeJobFault(v, jobs, floors) && !SomeCrateFault(v, jobs, floors)
        {
          assert !MustReport(v, jobs, floors);
        }
      }
    }
  }

  lemma JobsCleanMeansNoFault(jobs: seq<MsrvJob>, floors: seq<CrateFloor>)
    ensures (forall j :: j in jobs ==> JobClean(j, floors)) <==> forall v :: !SomeJobFault(v, jobs, floors)
  {
    hide JobFault, JobClean;
    forall j | j in jobs
      ensures JobClean(j, floors) <==> forall v :: !JobFault(v, j, j.checks, floors)
    {
      JobCleanMeansNoFault(j, floors);
    }
    if forall v :: !SomeJobFault(v, jobs, floors) {
      forall j, v | j in jobs
        ensures !JobFault(v, j, j.checks, floors)
      {
        assert !SomeJobFault(v, jobs, floors);
      }
    }
  }

  lemma CratesCleanMeansNoFault(jobs: seq<MsrvJob>, floors: seq<CrateFloor>)
    ensures (forall f :: f in floors ==> CrateClean(jobs, f)) <==> forall v :: !SomeCrateFault(v, jobs, floors)
  {
    hide CrateFault, CrateClean;
    forall f | f in floors
      ensures CrateClean(jobs, f) <==> forall v :: !CrateFault(v, jobs, f)
    {
      CrateCleanMeansNoFault(jobs, f);
    }
    if forall v :: !SomeCrateFault(v, jobs, floors) {
      forall f, v | f in floors
        ensures !CrateFault(v, jobs, f)
      {
        assert !SomeCrateFault(v, jobs, floors);
      }
    }
  }

  // ---- What a clean report means -------------------------------------------------------

  /** Exactly one job pinned to each crate's floor names it, and exactly one job in all unless
      the crate is a declared exception. */
  lemma CleanMeansOneJob(jobs: seq<MsrvJob>, floors: seq<CrateFloor>, f: CrateFloor)
    requires Clean(jobs, floors) && f in floors
    ensures exists k: nat :: PinnedAndNaming(jobs, f, k) && OnlyNaming(jobs, f, k)
  {
    assert CrateClean(jobs, f);
    var k: nat :| Holds(jobs, NamesItAt(f.name, f.floor), k)
      && forall m: nat :: Holds(jobs, NamesItAt(f.name, f.floor), m) ==> m == k;
    assert Holds(jobs, NamesIt(f.name), k);
    forall m: nat | m < |jobs| && Names(jobs[m], f.name)
      ensures m == k || (f.name in DUAL_TIER && jobs[m].toolchain != f.floor)
    {
      assert Holds(jobs, NamesIt(f.name), m);
      assert jobs[m].toolchain == f.floor ==> Holds(jobs, NamesItAt(f.name, f.floor), m);
    }
    assert PinnedAndNaming(jobs, f, k) && OnlyNaming(jobs, f, k);
  }

  ghost predicate PinnedAndNaming(jobs: seq<MsrvJob>, f: CrateFloor, k: nat) {
    k < |jobs| && Names(jobs[k], f.name) && jobs[k].toolchain == f.floor
  }

  /** Any other job that names the crate is another tier of a declared exception. */
  ghost predicate OnlyNaming(jobs: seq<MsrvJob>, f: CrateFloor, k: nat) {
    forall m: nat :: m < |jobs| && Names(jobs[m], f.name) ==>
      m == k || (f.name in DUAL_TIER && jobs[m].toolchain != f.floor)
  }

  // ---- When every job of a tier is checked ---------------------------------------------

  /** Every job pinned to the tier that names the crate checks it as declared. */
  ghost predicate AllDisposed(jobs: seq<MsrvJob>, crate: string, tier: Tier) {
    forall k: nat :: Holds(jobs, NamesItAt(crate, tier.toolchain), k) ==> Disposed(jobs[k], crate, tier)
  }

  /** The same checks but for their dispositions. */
  predicate SameNames(a: seq<MsrvCheck>, b: seq<MsrvCheck>) {
    |a| == |b| && forall i :: 0 <= i < |a| ==> a[i].crates == b[i].crates && a[i].line == b[i].line
  }

  /** The same jobs but for the dispositions of their checks. */
  ghost predicate SameButDispositions(a: seq<MsrvJob>, b: seq<MsrvJob>) {
    && |a| == |b|
    && forall k :: 0 <= k < |a| ==> b[k] == a[k].(checks := b[k].checks) && SameNames(a[k].checks, b[k].checks)
  }

  function Flipped(checks: seq<MsrvCheck>): (r: seq<MsrvCheck>)
    ensures |r| == |checks|
    ensures forall i :: 0 <= i < |r| ==> r[i] == checks[i].(allTargets := !checks[i].allTargets)
  {
    seq(|checks|, i requires 0 <= i < |checks| => checks[i].(allTargets := !checks[i].allTargets))
  }

  /** The jobs with every disposition of job `k` turned around. */
  function FlipJob(jobs: seq<MsrvJob>, k: nat): seq<MsrvJob>
    requires k < |jobs|
  {
    jobs[k := jobs[k].(checks := Flipped(jobs[k].checks))]
  }

  /** When one job of the tier names the crate, the check of the first one is a check of all. */
  lemma OnceMeansAllDisposed(jobs: seq<MsrvJob>, floors: seq<CrateFloor>, f: CrateFloor, t: Tier)
    requires Clean(jobs, floors) && f in floors && f.name in DUAL_TIER && t in DUAL_TIER[f.name]
    requires Once(jobs, NamesItAt(f.name, t.toolchain), 0)
    ensures AllDisposed(jobs, f.name, t)
  {
    assert CrateClean(jobs, f);
    assert TierClean(jobs, f.name, t);
  }

  /** The tier at the crate's own floor has one job, so it is always checked. */
  lemma OwnFloorIsChecked(jobs: seq<MsrvJob>, floors: seq<CrateFloor>, f: CrateFloor, t: Tier)
    requires Clean(jobs, floors) && f in floors && f.name in DUAL_TIER && t in DUAL_TIER[f.name]
    requires t.toolchain == f.floor
    ensures Once(jobs, NamesItAt(f.name, t.toolchain), 0) && AllDisposed(jobs, f.name, t)
  {
    assert CrateClean(jobs, f);
    OnceMeansAllDisposed(jobs, floors, f, t);
  }

  lemma SameJobsHold(a: seq<MsrvJob>, b: seq<MsrvJob>)
    requires SameButDispositions(a, b)
    ensures forall c, k: nat :: Holds(a, NamesIt(c), k) <==> Holds(b, NamesIt(c), k)
    ensures forall c, t, k: nat :: Holds(a, NamesItAt(c, t), k) <==> Holds(b, NamesItAt(c, t), k)
  {
    forall c, k: nat | k < |a|
      ensures Names(a[k], c) <==> Names(b[k], c)
    {
      var x, y := a[k].checks, b[k].checks;
      assert forall i :: 0 <= i < |x| ==> x[i] in x && y[i] in y && x[i].crates == y[i].crates;
    }
    hide Names, SameNames;
  }

  lemma FlipIsSame(jobs: seq<MsrvJob>, k: nat)
    requires k < |jobs|
    ensures SameButDispositions(jobs, FlipJob(jobs, k))
    ensures forall m :: 0 <= m < |jobs| && m != k ==> FlipJob(jobs, k)[m] == jobs[m]
  {
  }

  lemma SameJobClean(a: MsrvJob, b: MsrvJob, floors: seq<CrateFloor>)
    requires b == a.(checks := b.checks) && SameNames(a.checks, b.checks) && JobClean(a, floors)
    ensures JobClean(b, floors)
  {
    hide Known, Declares;
    forall c, n | c in b.checks && n in c.crates
      ensures Known(floors, n)
    {
      var i :| 0 <= i < |b.checks| && b.checks[i] == c;
      assert a.checks[i] in a.checks;
    }
  }

  /** `k` is not the first job of its tier to name the crate. */
  ghost predicate Later(jobs: seq<MsrvJob>, crate: string, toolchain: string, k: nat) {
    Holds(jobs, NamesItAt(crate, toolchain), k) && exists m: nat :: m < k && Holds(jobs, NamesItAt(crate, toolchain), m)
  }

  lemma FlipKeepsTier(jobs: seq<MsrvJob>, k: nat, crate: string, toolchain: string, t: Tier)
    requires Later(jobs, crate, toolchain, k) && TierClean(jobs, crate, t)
    ensures TierClean(FlipJob(jobs, k), crate, t)
  {
    var flipped := FlipJob(jobs, k);
    FlipIsSame(jobs, k);
    SameJobsHold(jobs, flipped);
    hide FlipJob, SameButDispositions, Disposed, Names;
    var m: nat :| First(jobs, NamesItAt(crate, t.toolchain), 0, m) && Disposed(jobs[m], crate, t);
    assert m != k by {
      var earlier: nat :| earlier < k && Holds(jobs, NamesItAt(crate, toolchain), earlier);
    }
    assert First(flipped, NamesItAt(crate, t.toolchain), 0, m);
  }

  /** Turning around the dispositions of a later job of a tier leaves a clean list clean. */
  lemma FlipKeepsClean(jobs: seq<MsrvJob>, floors: seq<CrateFloor>, f: CrateFloor, t: Tier, k: nat)
    requires Clean(jobs, floors) && f.name in DUAL_TIER && Later(jobs, f.name, t.toolchain, k)
    ensures Clean(FlipJob(jobs, k), floors)
  {
    var flipped := FlipJob(jobs, k);
    FlipIsSame(jobs, k);
    SameJobsHold(jobs, flipped);
    forall j | j in flipped
      ensures JobClean(j, floors)
    {
      var m :| 0 <= m < |flipped| && flipped[m] == j;
      assert jobs[m] in jobs;
      hide JobClean;
      SameJobClean(jobs[m], flipped[m], floors);
    }
    hide JobClean, FlipJob, TierClean;
    forall g | g in floors
      ensures CrateClean(flipped, g)
    {
      assert CrateClean(jobs, g);
      OnceAgrees(jobs, flipped, g.name, g.floor);
      assert f.name == "bathy-query" && (g.name in DUAL_TIER ==> g.name == "bathy-query");
      if g.name in DUAL_TIER {
        forall t' | t' in DUAL_TIER[g.name]
          ensures TierClean(flipped, g.name, t')
        {
          FlipKeepsTier(jobs, k, f.name, t.toolchain, t');
        }
      }
    }
  }

  lemma OnceAgrees(a: seq<MsrvJob>, b: seq<MsrvJob>, crate: string, toolchain: string)
    requires forall k: nat :: Holds(a, NamesIt(crate), k) <==> Holds(b, NamesIt(crate), k)
    requires forall k: nat :: Holds(a, NamesItAt(crate, toolchain), k) <==> Holds(b, NamesItAt(crate, toolchain), k)
    ensures Once(a, NamesIt(crate), 0) <==> Once(b, NamesIt(crate), 0)
    ensures Once(a, NamesItAt(crate, toolchain), 0) <==> Once(b, NamesItAt(crate, toolchain), 0)
  {
    hide Holds, Names, NamesIt, NamesItAt;
  }

  /** A clean report vouches for every job of a tier, whatever their dispositions, exactly when
      one job of that tier names the crate. */
  lemma TierVouchedForExactlyWhenOnce(jobs: seq<MsrvJob>, floors: seq<CrateFloor>, f: CrateFloor, t: Tier)
    requires Clean(jobs, floors) && f in floors && f.name in DUAL_TIER && t in DUAL_TIER[f.name]
    ensures Once(jobs, NamesItAt(f.name, t.toolchain), 0) <==>
      forall other :: SameButDispositions(jobs, other) && Clean(other, floors) ==> AllDisposed(other, f.name, t)
  {
    assert SameButDispositions(jobs, jobs);
    hide Clean, AllDisposed, SameButDispositions, Once;
    if Once(jobs, NamesItAt(f.name, t.toolchain), 0) {
      forall other | SameButDispositions(jobs, other) && Clean(other, floors)
        ensures AllDisposed(other, f.name, t)
      {
        SameJobsHold(jobs, other);
        OnceAgrees(jobs, other, f.name, t.toolchain);
        OnceMeansAllDisposed(other, floors, f, t);
      }
    } else {
      var k := SecondJob(jobs, floors, f, t);
      var flipped := FlipJob(jobs, k);
      FlipKeepsClean(jobs, floors, f, t, k);
      FlipIsSame(jobs, k);
      EitherIsWrong(jobs, f.name, t, k);
    }
  }

  lemma EitherIsWrong(jobs: seq<MsrvJob>, crate: string, t: Tier, k: nat)
    requires Later(jobs, crate, t.toolchain, k)
    ensures !AllDisposed(jobs, crate, t) || !AllDisposed(FlipJob(jobs, k), crate, t)
  {
    FlipIsSame(jobs, k);
    SameJobsHold(jobs, FlipJob(jobs, k));
    var i :| 0 <= i < |jobs[k].checks| && crate in jobs[k].checks[i].crates;
    assert jobs[k].checks[i] in jobs[k].checks;
    assert FlipJob(jobs, k)[k].checks[i] in FlipJob(jobs, k)[k].checks;
    hide Disposed, FlipJob, SameButDispositions;
    assert Holds(jobs, NamesItAt(crate, t.toolchain), k);
    assert Holds(FlipJob(jobs, k), NamesItAt(crate, t.toolchain), k);
  }

  /** In a clean list every tier has a job; when it has not just one, it has a later one. */
  lemma SecondJob(jobs: seq<MsrvJob>, floors: seq<CrateFloor>, f: CrateFloor, t: Tier) returns (k: nat)
    requires Clean(jobs, floors) && f in floors && f.name in DUAL_TIER && t in DUAL_TIER[f.name]
    requires !Once(jobs, NamesItAt(f.name, t.toolchain), 0)
    ensures Later(jobs, f.name, t.toolchain, k)
  {
    assert CrateClean(jobs, f);
    assert TierClean(jobs, f.name, t);
    hide Clean, CrateClean, Disposed;
    var p := NamesItAt(f.name, t.toolchain);
    var m: nat :| First(jobs, p, 0, m);
    k :| Holds(jobs, p, k) && k != m;
    assert m < k;
  }

  const QUERY := "bathy-query"
  const OTHER := "other"

  function JobNaming(name: string, toolchain: string, crates: seq<string>, allTargets: bool): MsrvJob {
    MsrvJob(name, toolchain, 1, true, [MsrvCheck(crates, allTargets, 1)])
  }

  /** Only the first job of a tier is looked at: a second one, checking the exception at the
      wrong disposition, leaves the report empty. */
  lemma SecondTierJobIsNotLookedAt(a: MsrvJob, b: MsrvJob, c: MsrvJob)
    requires a == JobNaming("a", "1.88", [QUERY], false)
    requires b == JobNaming("b", "1.95", [QUERY, OTHER], true)
    requires c == JobNaming("c", "1.95", [QUERY], false)
    ensures Clean([a, b, c], [CrateFloor(QUERY, "1.88", ""), CrateFloor(OTHER, "1.95", "")])
    ensures !Disposed(c, QUERY, Tier("1.95", true))
  {
    var jobs, floors := [a, b, c], [CrateFloor(QUERY, "1.88", ""), CrateFloor(OTHER, "1.95", "")];
    assert QUERY[0] != OTHER[0] && "1.88"[2] != "1.95"[2];
    assert c.checks[0] in c.checks;
    forall crate
      ensures Names(a, crate) <==> crate in [QUERY]
      ensures Names(b, crate) <==> crate in [QUERY, OTHER]
      ensures Names(c, crate) <==> crate in [QUERY]
    {
      assert a.checks[0] in a.checks && b.checks[0] in b.checks && c.checks[0] in c.checks;
    }
    hide Names;
    JobsAreClean(a, b, c, floors);
    QueryIsClean(a, b, c);
    OtherIsClean(jobs);
  }

  lemma JobsAreClean(a: MsrvJob, b: MsrvJob, c: MsrvJob, floors: seq<CrateFloor>)
    requires a == JobNaming("a", "1.88", [QUERY], false)
    requires b == JobNaming("b", "1.95", [QUERY, OTHER], true)
    requires c == JobNaming("c", "1.95", [QUERY], false)
    requires floors == [CrateFloor(QUERY, "1.88", ""), CrateFloor(OTHER, "1.95", "")]
    ensures JobClean(a, floors) && JobClean(b, floors) && JobClean(c, floors)
  {
    assert floors[0] in floors && floors[1] in floors;
    assert Known(floors, QUERY) && Known(floors, OTHER);
    assert Declares(floors, "1.88") && Declares(floors, "1.95");
  }

  lemma QueryIsClean(a: MsrvJob, b: MsrvJob, c: MsrvJob)
    requires a == JobNaming("a", "1.88", [QUERY], false)
    requires b == JobNaming("b", "1.95", [QUERY, OTHER], true)
    requires c == JobNaming("c", "1.95", [QUERY], false)
    requires Names(a, QUERY) && Names(b, QUERY) && Names(c, QUERY)
    ensures CrateClean([a, b, c], CrateFloor(QUERY, "1.88", ""))
  {
    hide Names;
    var jobs := [a, b, c];
    assert "1.88"[2] != "1.95"[2];
    assert Holds(jobs, NamesItAt(QUERY, "1.88"), 0);
    assert Holds(jobs, NamesIt(QUERY), 0) && Holds(jobs, NamesIt(QUERY), 1);
    assert First(jobs, NamesItAt(QUERY, "1.88"), 0, 0);
    assert !Holds(jobs, NamesItAt(QUERY, "1.95"), 0) && First(jobs, NamesItAt(QUERY, "1.95"), 0, 1);
    assert TierClean(jobs, QUERY, Tier("1.88", false)) && TierClean(jobs, QUERY, Tier("1.95", true));
  }

  lemma OtherIsClean(jobs: seq<MsrvJob>)
    requires |jobs| == 3 && jobs[1].toolchain == "1.95"
    requires !Names(jobs[0], OTHER) && Names(jobs[1], OTHER) && !Names(jobs[2], OTHER)
    ensures CrateClean(jobs, CrateFloor(OTHER, "1.95", ""))
  {
    hide Names;
    assert OTHER[0] != QUERY[0];
    assert Holds(jobs, NamesItAt(OTHER, "1.95"), 1) && Holds(jobs, NamesIt(OTHER), 1);
  }
}
