/** `parse_msrv_jobs` of xtask/src/gates.rs: the compiler-floor jobs of a workflow, read line by
    line. The workflow is given as its lines; Unicode white space is a parameter. */
module MsrvJobs {
  import opened Options
  import opened TextSearch

  /** The crates named on one `cargo check` line. */
  datatype MsrvCheck = MsrvCheck(crates: seq<string>, allTargets: bool, line: nat)

  datatype MsrvJob = MsrvJob(
    name: string, toolchain: string, toolchainLine: nat, removesPin: bool, checks: seq<MsrvCheck>)

  const TOOLCHAIN := "dtolnay/rust-toolchain@"
  const REMOVE_PIN := "rm -f rust-toolchain.toml"
  const CARGO_CHECK := "cargo check "

  // ---- One line ------------------------------------------------------------------------

  function Word(s: string, white: char -> bool): (n: nat)
    ensures n <= |s|
  {
    if s == [] || white(s[0]) then 0 else 1 + Word(s[1..], white)
  }

  function SplitWhitespace(s: string, white: char -> bool): seq<string>
    decreases |s|
  {
    if s == [] then []
    else if white(s[0]) then SplitWhitespace(s[1..], white)
    else [s[..Word(s, white)]] + SplitWhitespace(s[Word(s, white)..], white)
  }

  /** A job key: exactly two spaces of indent, then `name:`. */
  function JobKey(line: string): Option<string> {
    if |line| >= 3 && line[..2] == "  " && line[2] !in {' ', '#', '-'} && line[|line| - 1] == ':' then
      Some(line[2..|line| - 1])
    else None
  }

  function Toolchain(line: string, white: char -> bool): Option<string> {
    match Find(line, TOOLCHAIN)
    case None => None
    case Some(at) =>
      var words := SplitWhitespace(line[at + |TOOLCHAIN|..], white);
      Some(if words == [] then "" else words[0])
  }

  /** The fields that follow a `-p`. */
  function PackagesOf(fields: seq<string>): seq<string> {
    if |fields| < 2 then []
    else if fields[0] == "-p" then [fields[1]] + PackagesOf(fields[2..])
    else PackagesOf(fields[1..])
  }

  function Check(line: string, number: nat, white: char -> bool): Option<MsrvCheck> {
    match Find(line, CARGO_CHECK)
    case None => None
    case Some(at) =>
      var command := line[at..];
      Some(MsrvCheck(PackagesOf(SplitWhitespace(command, white)), Find(command, "--all-targets").Some?, number))
  }

  // ---- The workflow as sections --------------------------------------------------------

  function NewJob(name: string): MsrvJob {
    MsrvJob(name, "", 0, false, [])
  }

  /** What one line inside a job adds to it. */
  function Read(job: MsrvJob, line: string, number: nat, white: char -> bool): MsrvJob {
    var pinned := match Toolchain(line, white)
      case None => job
      case Some(t) => job.(toolchain := t, toolchainLine := number);
    var removes := if Find(line, REMOVE_PIN).Some? then pinned.(removesPin := true) else pinned;
    match Check(line, number, white)
    case None => removes
    case Some(c) => removes.(checks := removes.checks + [c])
  }

  /** The first job key from line `i` on. */
  function NextKey(lines: seq<string>, i: nat): (k: nat)
    ensures i <= |lines| ==> i <= k <= |lines|
    ensures k < |lines| ==> JobKey(lines[k]).Some?
    decreases |lines| - i
  {
    if i >= |lines| then |lines| else if JobKey(lines[i]).Some? then i else NextKey(lines, i + 1)
  }

  /** The job that `job` becomes over the lines up to the next key. */
  function Section(lines: seq<string>, i: nat, job: MsrvJob, white: char -> bool): MsrvJob
    decreases |lines| - i
  {
    if i >= |lines| || JobKey(lines[i]).Some? then job
    else Section(lines, i + 1, Read(job, lines[i], i + 1, white), white)
  }

  /** Every job of the workflow, whether or not it checks a floor. */
  function Sections(lines: seq<string>, i: nat, white: char -> bool): seq<MsrvJob>
    decreases |lines| - i
  {
    var k := NextKey(lines, i);
    if i >= |lines| || k == |lines| then []
    else
      [Section(lines, k + 1, NewJob(JobKey(lines[k]).value), white)] + Sections(lines, k + 1, white)
  }

  predicate Kept(job: MsrvJob) {
    job.checks != [] && job.toolchain != "stable"
  }

  function Retain(jobs: seq<MsrvJob>): (kept: seq<MsrvJob>)
    ensures forall j :: j in kept <==> j in jobs && Kept(j)
  {
    if jobs == [] then []
    else Retain(jobs[..|jobs| - 1]) + (if Kept(jobs[|jobs| - 1]) then [jobs[|jobs| - 1]] else [])
  }

  lemma {:induction false} RetainAppend(a: seq<MsrvJob>, b: seq<MsrvJob>)
    ensures Retain(a + b) == Retain(a) + Retain(b)
  {
    if b == [] {
      assert a + b == a;
    } else {
      var last := b[|b| - 1];
      assert (a + b)[..|a + b| - 1] == a + b[..|b| - 1];
      RetainAppend(a, b[..|b| - 1]);
    }
  }

  /** The jobs still to come: the open one, if any, and the sections after it. */
  ghost function Pending(lines: seq<string>, i: nat, current: Option<MsrvJob>, white: char -> bool): seq<MsrvJob> {
    (if current.None? then [] else [Section(lines, i, current.value, white)]) + Sections(lines, i, white)
  }

  /** The two flushes differ and the last one looks at more; together they keep exactly the
      sections with a check and a toolchain other than `stable`. */
  method ParseMsrvJobs(lines: seq<string>, white: char -> bool) returns (jobs: seq<MsrvJob>)
    ensures jobs == Retain(Sections(lines, 0, white))
  {
    hide Retain, Pending, Sections, Read, JobKey;
    jobs := [];
    var current: Option<MsrvJob> := None;
    FirstLine(lines, white);
    ghost var all := Retain(Sections(lines, 0, white));
    for index := 0 to |lines|
      invariant all == Retain(jobs) + Retain(Pending(lines, index, current, white))
    {
      var line, number := lines[index], index + 1;
      var key := JobKey(line);
      if key.Some? {
        KeyLine(lines, index, current, white);
        if current.Some? && current.value.toolchain != "stable" {
          RetainOne(jobs, current.value);
          jobs := jobs + [current.value];
        }
        current := Some(NewJob(key.value));
      } else {
        InnerLine(lines, index, current, white);
        if current.Some? {
          current := Some(Read(current.value, line, number, white));
        }
      }
    }
    LastLine(lines, current, white);
    if current.Some? && current.value.toolchain != "stable" && current.value.checks != [] {
      RetainOne(jobs, current.value);
      jobs := jobs + [current.value];
    }
    RetainTwice(Sections(lines, 0, white));
    jobs := Retain(jobs);
  }

  lemma RetainOne(jobs: seq<MsrvJob>, job: MsrvJob)
    ensures Retain(jobs + [job]) == Retain(jobs) + (if Kept(job) then [job] else [])
  {
    assert (jobs + [job])[..|jobs|] == jobs;
  }

  lemma FirstLine(lines: seq<string>, white: char -> bool)
    ensures Pending(lines, 0, None, white) == Sections(lines, 0, white)
    ensures Retain([]) == []
  {
  }

  lemma KeyLine(lines: seq<string>, i: nat, current: Option<MsrvJob>, white: char -> bool)
    requires i < |lines| && JobKey(lines[i]).Some?
    ensures Retain(Pending(lines, i, current, white)) ==
      (if current.Some? && Kept(current.value) then [current.value] else [])
      + Retain(Pending(lines, i + 1, Some(NewJob(JobKey(lines[i]).value)), white))
  {
    hide Read, Retain;
    var rest := Pending(lines, i + 1, Some(NewJob(JobKey(lines[i]).value)), white);
    assert Sections(lines, i, white) == rest;
    if current.Some? {
      assert Section(lines, i, current.value, white) == current.value;
      hide Section, Sections;
      RetainFirst(current.value, rest);
    } else {
      assert [] + rest == rest;
    }
  }

  lemma RetainFirst(job: MsrvJob, rest: seq<MsrvJob>)
    ensures Retain([job] + rest) == (if Kept(job) then [job] else []) + Retain(rest)
  {
    RetainAppend([job], rest);
    RetainOne([], job);
    assert [] + [job] == [job];
  }

  lemma InnerLine(lines: seq<string>, i: nat, current: Option<MsrvJob>, white: char -> bool)
    requires i < |lines| && JobKey(lines[i]).None?
    ensures Pending(lines, i, current, white) == Pending(lines, i + 1,
        if current.None? then None else Some(Read(current.value, lines[i], i + 1, white)), white)
  {
    assert NextKey(lines, i) == NextKey(lines, i + 1);
    assert Sections(lines, i, white) == Sections(lines, i + 1, white);
  }

  lemma LastLine(lines: seq<string>, current: Option<MsrvJob>, white: char -> bool)
    ensures Retain(Pending(lines, |lines|, current, white)) ==
      if current.Some? && Kept(current.value) then [current.value] else []
  {
    assert Pending(lines, |lines|, current, white) == if current.None? then [] else [] + [current.value];
    if current.Some? {
      RetainOne([], current.value);
    }
  }

  lemma {:induction false} RetainTwice(jobs: seq<MsrvJob>)
    ensures Retain(Retain(jobs)) == Retain(jobs)
  {
    if jobs != [] {
      var front := jobs[..|jobs| - 1];
      RetainTwice(front);
      if Kept(jobs[|jobs| - 1]) {
        RetainAppend(Retain(front), [jobs[|jobs| - 1]]);
      } else {
        assert Retain(front) + [] == Retain(front);
      }
    }
  }

  predicate PinsAFloor(job: MsrvJob) {
    job.toolchain != "" && job.toolchain != "stable"
  }

  /** The documentation keeps a job exactly when it pins a toolchain other than `stable`. That
      is what happens exactly when, among the jobs not pinned to `stable`, those that pin a
      toolchain are those that run a check. */
  lemma DocumentedExactlyWhenPinnedJobsCheck(jobs: seq<MsrvJob>)
    ensures (forall j :: j in jobs ==> (j in Retain(jobs) <==> PinsAFloor(j))) <==>
      forall j :: j in jobs && j.toolchain != "stable" ==> (j.toolchain != "" <==> j.checks != [])
  {
  }

  lemma CheckLineRead(job: MsrvJob, white: char -> bool)
    requires !white('c') && white(' ')
    ensures var read := Read(job, CARGO_CHECK, 2, white);
      JobKey(CARGO_CHECK) == None && read.toolchain == job.toolchain && |read.checks| == |job.checks| + 1
  {
    var line := CARGO_CHECK;
    assert |TOOLCHAIN| == 23 && |REMOVE_PIN| == 25 && |line| == 12;
    assert line[..|CARGO_CHECK|] == CARGO_CHECK && line[..2][0] == 'c';
    assert Find(line, CARGO_CHECK) == Some(0);
    assert Find(line, TOOLCHAIN) == None && Find(line, REMOVE_PIN) == None;
  }

  lemma OneSection(lines: seq<string>, name: string, white: char -> bool)
    requires |lines| == 2 && JobKey(lines[0]) == Some(name) && JobKey(lines[1]) == None
    ensures Sections(lines, 0, white) == [Read(NewJob(name), lines[1], 2, white)]
  {
    hide Read, JobKey;
    var job := Read(NewJob(name), lines[1], 2, white);
    assert Section(lines, 1, NewJob(name), white) == Section(lines, 2, job, white) == job;
    assert NextKey(lines, 0) == 0 && NextKey(lines, 1) == NextKey(lines, 2) == 2;
  }

  lemma KeyOfA()
    ensures JobKey("  a:") == Some("a")
  {
    assert "  a:"[..2] == "  " && "  a:"[2..3] == "a";
  }

  /** A job that pins no toolchain is documented as no floor job; with a check it is kept. */
  lemma UnpinnedJobIsKept(white: char -> bool)
    requires !white('c') && white(' ')
    ensures var kept := Retain(Sections(["  a:", CARGO_CHECK], 0, white));
      |kept| == 1 && kept[0].toolchain == ""
  {
    CheckLineRead(NewJob("a"), white);
    KeyOfA();
    hide Read, JobKey, Sections, Section;
    OneSection(["  a:", CARGO_CHECK], "a", white);
    var job := Read(NewJob("a"), CARGO_CHECK, 2, white);
    RetainOne([], job);
    assert [] + [job] == [job];
  }
}
