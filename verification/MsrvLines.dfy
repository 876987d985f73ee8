/** What `parse_msrv_jobs` (xtask/src/gates.rs) reads, said of the text of the workflow: where a
    phrase stands in a line, which words a line is made of, and which lines make up a job. */
module MsrvLines {
  import opened MsrvJobs
  import opened Options
  import opened TextSearch

  // ---- Phrases and words ---------------------------------------------------------------

  ghost predicate Holds(s: string, phrase: string) {
    exists k: nat :: Occurs(s, phrase, k)
  }

  ghost predicate FirstAt(s: string, phrase: string, at: nat) {
    Occurs(s, phrase, at) && forall k: nat :: k < at ==> !Occurs(s, phrase, k)
  }

  lemma FindReads(s: string, phrase: string)
    ensures Find(s, phrase).Some? <==> Holds(s, phrase)
    ensures Find(s, phrase).Some? ==> FirstAt(s, phrase, Find(s, phrase).value)
  {
    hide Find, Occurs;
    forall k: nat | Occurs(s, phrase, k)
      ensures Find(s, phrase).Some? && Find(s, phrase).value <= k
    {
      FindIsFirst(s, phrase, k);
    }
  }

  /** A word and the white space after it. */
  datatype Spaced = Spaced(word: string, gap: string)

  predicate AllWhite(s: string, white: char -> bool) {
    forall k :: 0 <= k < |s| ==> white(s[k])
  }

  predicate IsWord(s: string, white: char -> bool) {
    s != [] && forall k :: 0 <= k < |s| ==> !white(s[k])
  }

  /** Only the last word may be without white space after it. */
  predicate WellSpaced(line: seq<Spaced>, white: char -> bool) {
    forall k :: 0 <= k < |line| ==>
      && IsWord(line[k].word, white) && AllWhite(line[k].gap, white)
      && (k < |line| - 1 ==> line[k].gap != [])
  }

  function Spread(line: seq<Spaced>): string {
    if line == [] then [] else line[0].word + (line[0].gap + Spread(line[1..]))
  }

  function WordsOf(line: seq<Spaced>): (words: seq<string>)
    ensures |words| == |line| && forall k :: 0 <= k < |line| ==> words[k] == line[k].word
  {
    seq(|line|, k requires 0 <= k < |line| => line[k].word)
  }

  /** `s` is these words, with white space between them and perhaps around them. */
  ghost predicate MadeOf(s: string, words: seq<string>, white: char -> bool) {
    exists lead: string, line: seq<Spaced> ::
      AllWhite(lead, white) && WellSpaced(line, white) && s == lead + Spread(line) && words == WordsOf(line)
  }

  lemma {:induction false} WhiteIsSkipped(gap: string, rest: string, white: char -> bool)
    requires AllWhite(gap, white)
    ensures SplitWhitespace(gap + rest, white) == SplitWhitespace(rest, white)
  {
    if gap == [] {
      assert gap + rest == rest;
    } else {
      assert (gap + rest)[1..] == gap[1..] + rest;
      WhiteIsSkipped(gap[1..], rest, white);
    }
  }

  lemma {:induction false} WordIsMeasured(word: string, rest: string, white: char -> bool)
    requires forall k :: 0 <= k < |word| ==> !white(word[k])
    requires rest == [] || white(rest[0])
    ensures Word(word + rest, white) == |word|
  {
    if word == [] {
      assert word + rest == rest;
    } else {
      assert (word + rest)[1..] == word[1..] + rest;
      WordIsMeasured(word[1..], rest, white);
    }
  }

  lemma WordIsTaken(word: string, rest: string, white: char -> bool)
    requires IsWord(word, white) && (rest == [] || white(rest[0]))
    ensures SplitWhitespace(word + rest, white) == [word] + SplitWhitespace(rest, white)
  {
    WordIsMeasured(word, rest, white);
    assert (word + rest)[..|word|] == word && (word + rest)[|word|..] == rest;
  }

  /** A text made of words is split into exactly these. */
  lemma {:induction false} SplitGivesTheWords(lead: string, line: seq<Spaced>, white: char -> bool)
    requires AllWhite(lead, white) && WellSpaced(line, white)
    ensures SplitWhitespace(lead + Spread(line), white) == WordsOf(line)
    decreases |line|
  {
    hide SplitWhitespace;
    WhiteIsSkipped(lead, Spread(line), white);
    if line == [] {
      SplitNothing(white);
    } else {
      var rest := line[0].gap + Spread(line[1..]);
      SplitGivesTheWords(line[0].gap, line[1..], white);
      assert rest == [] || white(rest[0]);
      WordIsTaken(line[0].word, rest, white);
      assert WordsOf(line) == [line[0].word] + WordsOf(line[1..]);
    }
  }

  lemma SplitNothing(white: char -> bool)
    ensures SplitWhitespace([], white) == []
  {
  }

  /** Every text is made of words, and they are what splitting it gives. */
  lemma SplitReads(s: string, white: char -> bool)
    ensures MadeOf(s, SplitWhitespace(s, white), white)
    ensures forall words :: MadeOf(s, words, white) ==> words == SplitWhitespace(s, white)
  {
    var lead, line := LayOut(s, white);
    hide SplitWhitespace, Spread, WordsOf, WellSpaced, AllWhite;
    SplitGivesTheWords(lead, line, white);
    forall words | MadeOf(s, words, white)
      ensures words == SplitWhitespace(s, white)
    {
      var a: string, b: seq<Spaced> :|
        AllWhite(a, white) && WellSpaced(b, white) && s == a + Spread(b) && words == WordsOf(b);
      SplitGivesTheWords(a, b, white);
    }
  }

  lemma {:induction false} WordEnds(s: string, white: char -> bool)
    ensures var n := Word(s, white);
      (forall k :: 0 <= k < n ==> !white(s[k])) && (n < |s| ==> white(s[n]))
  {
    if s != [] && !white(s[0]) {
      WordEnds(s[1..], white);
      assert forall k :: 1 <= k < |s| ==> s[k] == s[1..][k - 1];
    }
  }

  lemma FirstWord(s: string, white: char -> bool)
    requires s != [] && !white(s[0])
    ensures var n := Word(s, white);
      0 < n <= |s| && IsWord(s[..n], white) && (n < |s| ==> white(s[n]))
  {
    WordEnds(s, white);
  }

  lemma SpreadStarts(line: seq<Spaced>, white: char -> bool)
    requires WellSpaced(line, white)
    ensures line != [] ==> Spread(line) != [] && !white(Spread(line)[0])
  {
  }

  lemma {:induction false} LayOut(s: string, white: char -> bool) returns (lead: string, line: seq<Spaced>)
    ensures AllWhite(lead, white) && WellSpaced(line, white) && s == lead + Spread(line)
    decreases |s|
  {
    lead, line := [], [];
    if s != [] {
      if white(s[0]) {
        lead, line := LayOut(s[1..], white);
        lead := [s[0]] + lead;
      } else {
        var n := Word(s, white);
        FirstWord(s, white);
        var gap, more := LayOut(s[n..], white);
        SpreadStarts(more, white);
        line := [Spaced(s[..n], gap)] + more;
        assert line[1..] == more;
        assert s == s[..n] + s[n..];
      }
    }
  }

  // ---- Rising positions ----------------------------------------------------------------

  predicate Rising(ks: seq<nat>) {
    forall a, b :: 0 <= a < b < |ks| ==> ks[a] < ks[b]
  }

  lemma RisingAppend(ks: seq<nat>, k: nat)
    requires Rising(ks) && forall m :: m in ks ==> m < k
    ensures Rising(ks + [k])
  {
    assert forall a :: 0 <= a < |ks| ==> ks[a] in ks;
  }

  lemma RisingPrepend(k: nat, ks: seq<nat>)
    requires Rising(ks) && forall m :: m in ks ==> k < m
    ensures Rising([k] + ks)
  {
    assert forall a :: 0 <= a < |ks| ==> ks[a] in ks;
  }

  // ---- One line ------------------------------------------------------------------------

  /** A job key is two spaces, a name that is not indented further and begins no comment and no
      list, and a colon. */
  lemma JobKeyReads(line: string, name: string)
    ensures JobKey(line) == Some(name) <==>
      line == "  " + name + ":" && (name != "" ==> name[0] != ' ' && name[0] != '#' && name[0] != '-')
  {
    if line == "  " + name + ":" {
      assert line[..2] == "  " && line[2..|line| - 1] == name;
    }
    if JobKey(line) == Some(name) {
      assert line == line[..2] + line[2..|line| - 1] + [line[|line| - 1]];
    }
  }

  /** The field at `k` is a flag, and not the name that an earlier flag asks for. */
  predicate IsFlag(fields: seq<string>, k: nat)
    requires k < |fields|
  {
    fields[k] == "-p" && (k == 0 || !IsFlag(fields, k - 1))
  }

  /** The crates are the fields after the flags from position `i` on, in order; a flag that ends
      the line names none. */
  ghost predicate FollowFlags(fields: seq<string>, i: nat, crates: seq<string>, ks: seq<nat>) {
    && |ks| == |crates| && Rising(ks)
    && (forall k: nat :: k in ks <==> i <= k && k + 1 < |fields| && IsFlag(fields, k))
    && forall a :: 0 <= a < |ks| ==> ks[a] + 1 < |fields| && crates[a] == fields[ks[a] + 1]
  }

  lemma NameIsNoFlag(fields: seq<string>, k: nat)
    requires k + 1 < |fields| && IsFlag(fields, k)
    ensures !IsFlag(fields, k + 1)
  {
  }

  lemma FlagStep(fields: seq<string>, i: nat, crates: seq<string>, ks: seq<nat>)
    requires i + 1 < |fields| && IsFlag(fields, i) && FollowFlags(fields, i + 2, crates, ks)
    ensures FollowFlags(fields, i, [fields[i + 1]] + crates, [i] + ks)
  {
    NameIsNoFlag(fields, i);
    RisingPrepend(i, ks);
    hide IsFlag, Rising;
  }

  lemma PlainStep(fields: seq<string>, i: nat, crates: seq<string>, ks: seq<nat>)
    requires i + 1 < |fields| && !IsFlag(fields, i) && FollowFlags(fields, i + 1, crates, ks)
    ensures FollowFlags(fields, i, crates, ks)
  {
    hide IsFlag, Rising;
  }

  lemma {:induction false} PackagesRead(fields: seq<string>, i: nat) returns (ks: seq<nat>)
    requires i <= |fields| && (0 < i ==> !IsFlag(fields, i - 1))
    ensures FollowFlags(fields, i, PackagesOf(fields[i..]), ks)
    decreases |fields| - i
  {
    hide FollowFlags;
    if i + 1 >= |fields| {
      ks := NoFlags(fields, i);
    } else if fields[i] == "-p" {
      ks := PackagesRead(fields, i + 2);
      FlagStep(fields, i, PackagesOf(fields[i + 2..]), ks);
      assert fields[i..][2..] == fields[i + 2..];
      ks := [i] + ks;
    } else {
      ks := PackagesRead(fields, i + 1);
      PlainStep(fields, i, PackagesOf(fields[i + 1..]), ks);
      assert fields[i..][1..] == fields[i + 1..];
    }
  }

  lemma NoFlags(fields: seq<string>, i: nat) returns (ks: seq<nat>)
    requires i <= |fields| <= i + 1
    ensures FollowFlags(fields, i, PackagesOf(fields[i..]), ks)
  {
    ks := [];
  }

  /** The command runs from the first `cargo check ` to the end of the line. */
  ghost predicate CheckSays(c: MsrvCheck, line: string, number: nat, white: char -> bool) {
    && c.line == number
    && exists at: nat, fields, ks ::
      && FirstAt(line, "cargo check ", at) && MadeOf(line[at..], fields, white) && FollowFlags(fields, 0, c.crates, ks)
      && (c.allTargets <==> Holds(line[at..], "--all-targets"))
  }

  lemma CheckReads(line: string, number: nat, white: char -> bool)
    ensures Check(line, number, white).Some? <==> Holds(line, "cargo check ")
    ensures Check(line, number, white).Some? ==> CheckSays(Check(line, number, white).value, line, number, white)
  {
    FindReads(line, "cargo check ");
    hide Find, Holds, FollowFlags, MadeOf, PackagesOf, SplitWhitespace;
    if Check(line, number, white).Some? {
      var at := Find(line, "cargo check ").value;
      FindReads(line[at..], "--all-targets");
      SplitReads(line[at..], white);
      var fields := SplitWhitespace(line[at..], white);
      var ks := PackagesRead(fields, 0);
      assert fields[0..] == fields;
    }
  }

  /** The words behind the marker's first place in the line. */
  ghost predicate Marked(line: string, at: nat, words: seq<string>, white: char -> bool) {
    FirstAt(line, "dtolnay/rust-toolchain@", at) && at + 23 <= |line| && MadeOf(line[at + 23..], words, white)
  }

  ghost predicate ToolchainSays(toolchain: string, line: string, white: char -> bool) {
    exists at, words :: Marked(line, at, words, white) && toolchain == if words == [] then "" else words[0]
  }

  lemma ToolchainReads(line: string, white: char -> bool)
    ensures Toolchain(line, white).Some? <==> Holds(line, "dtolnay/rust-toolchain@")
    ensures Toolchain(line, white).Some? ==> ToolchainSays(Toolchain(line, white).value, line, white)
  {
    FindReads(line, "dtolnay/rust-toolchain@");
    hide Find, Holds, MadeOf, SplitWhitespace;
    if Toolchain(line, white).Some? {
      var at := Find(line, "dtolnay/rust-toolchain@").value;
      assert |TOOLCHAIN| == 23;
      SplitReads(line[at + 23..], white);
      assert Marked(line, at, SplitWhitespace(line[at + 23..], white), white);
    }
  }

  // ---- One job -------------------------------------------------------------------------

  ghost predicate HasToolchain(line: string) {
    Holds(line, "dtolnay/rust-toolchain@")
  }

  ghost predicate RemovesPin(line: string) {
    Holds(line, "rm -f rust-toolchain.toml")
  }

  ghost predicate HasCheck(line: string) {
    Holds(line, "cargo check ")
  }

  /** Line `k` is the last before `end` and behind the key that names a toolchain. */
  ghost predicate LastToolchain(lines: seq<string>, key: nat, end: nat, k: nat) {
    key < k < end <= |lines| && HasToolchain(lines[k]) && forall m :: k < m < end ==> !HasToolchain(lines[m])
  }

  ghost predicate ToolchainOf(job: MsrvJob, lines: seq<string>, key: nat, end: nat, white: char -> bool)
    requires end <= |lines|
  {
    && (forall k: nat :: LastToolchain(lines, key, end, k) ==>
        job.toolchainLine == k + 1 && ToolchainSays(job.toolchain, lines[k], white))
    && ((forall k :: key < k < end ==> !HasToolchain(lines[k])) ==>
        job.toolchain == "" && job.toolchainLine == 0)
  }

  ghost predicate PinOf(job: MsrvJob, lines: seq<string>, key: nat, end: nat)
    requires end <= |lines|
  {
    job.removesPin <==> exists k :: key < k < end && RemovesPin(lines[k])
  }

  /** One check for each line with a command, in order. */
  ghost predicate ChecksOf(
    job: MsrvJob, lines: seq<string>, key: nat, end: nat, white: char -> bool, ks: seq<nat>)
    requires end <= |lines|
  {
    && |ks| == |job.checks| && Rising(ks)
    && (forall k: nat :: k in ks <==> key < k < end && HasCheck(lines[k]))
    && forall a :: 0 <= a < |ks| ==> ks[a] < end && CheckSays(job.checks[a], lines[ks[a]], ks[a] + 1, white)
  }

  lemma PinStep(job: MsrvJob, lines: seq<string>, key: nat, i: nat, white: char -> bool)
    requires key < i < |lines| && PinOf(job, lines, key, i)
    ensures PinOf(Read(job, lines[i], i + 1, white), lines, key, i + 1)
  {
    FindReads(lines[i], "rm -f rust-toolchain.toml");
    hide Find, Holds, Toolchain, Check;
  }

  lemma ReadToolchain(job: MsrvJob, line: string, number: nat, white: char -> bool)
    ensures var next := Read(job, line, number, white);
      if Toolchain(line, white).None? then
        next.toolchain == job.toolchain && next.toolchainLine == job.toolchainLine
      else
        next.toolchain == Toolchain(line, white).value && next.toolchainLine == number
    ensures Read(job, line, number, white).name == job.name
    ensures Read(job, line, number, white).checks ==
      if Check(line, number, white).None? then job.checks else job.checks + [Check(line, number, white).value]
  {
    hide Find, Toolchain, Check;
  }

  lemma LastStep(lines: seq<string>, key: nat, i: nat, k: nat)
    requires key < i && LastToolchain(lines, key, i + 1, k)
    ensures if HasToolchain(lines[i]) then k == i else LastToolchain(lines, key, i, k)
  {
    hide HasToolchain;
  }

  lemma ToolchainStep(job: MsrvJob, lines: seq<string>, key: nat, i: nat, white: char -> bool)
    requires key < i < |lines| && ToolchainOf(job, lines, key, i, white)
    ensures ToolchainOf(Read(job, lines[i], i + 1, white), lines, key, i + 1, white)
  {
    ToolchainReads(lines[i], white);
    assert HasToolchain(lines[i]) <==> Toolchain(lines[i], white).Some?;
    ReadToolchain(job, lines[i], i + 1, white);
    hide HasToolchain, Holds, Toolchain, Read, ToolchainSays, LastToolchain;
    forall k: nat | LastToolchain(lines, key, i + 1, k)
      ensures if HasToolchain(lines[i]) then k == i else LastToolchain(lines, key, i, k)
    {
      LastStep(lines, key, i, k);
    }
  }

  lemma ChecksAppend(
    job: MsrvJob, next: MsrvJob, c: MsrvCheck, lines: seq<string>, key: nat, i: nat, white: char -> bool, ks: seq<nat>)
    requires key < i < |lines| && ChecksOf(job, lines, key, i, white, ks)
    requires next.checks == job.checks + [c] && HasCheck(lines[i]) && CheckSays(c, lines[i], i + 1, white)
    ensures ChecksOf(next, lines, key, i + 1, white, ks + [i])
  {
    RisingAppend(ks, i);
    hide HasCheck, CheckSays, Rising;
  }

  lemma ChecksKeep(
    job: MsrvJob, next: MsrvJob, lines: seq<string>, key: nat, i: nat, white: char -> bool, ks: seq<nat>)
    requires key < i < |lines| && ChecksOf(job, lines, key, i, white, ks)
    requires next.checks == job.checks && !HasCheck(lines[i])
    ensures ChecksOf(next, lines, key, i + 1, white, ks)
  {
    hide HasCheck, CheckSays, Rising;
  }

  lemma ChecksStep(
    job: MsrvJob, lines: seq<string>, key: nat, i: nat, white: char -> bool, ks: seq<nat>) returns (ks': seq<nat>)
    requires key < i < |lines| && ChecksOf(job, lines, key, i, white, ks)
    ensures ChecksOf(Read(job, lines[i], i + 1, white), lines, key, i + 1, white, ks')
  {
    CheckReads(lines[i], i + 1, white);
    ReadToolchain(job, lines[i], i + 1, white);
    assert HasCheck(lines[i]) <==> Check(lines[i], i + 1, white).Some?;
    hide HasCheck, Holds, Check, Read, CheckSays, Rising, ChecksOf;
    var next := Read(job, lines[i], i + 1, white);
    if Check(lines[i], i + 1, white).Some? {
      ChecksAppend(job, next, Check(lines[i], i + 1, white).value, lines, key, i, white, ks);
      ks' := ks + [i];
    } else {
      ChecksKeep(job, next, lines, key, i, white, ks);
      ks' := ks;
    }
  }

  /** What the lines from a key up to `end` make of its job. */
  ghost predicate JobSays(
    job: MsrvJob, lines: seq<string>, key: nat, end: nat, white: char -> bool, ks: seq<nat>)
  {
    && end <= |lines|
    && ToolchainOf(job, lines, key, end, white) && PinOf(job, lines, key, end)
    && ChecksOf(job, lines, key, end, white, ks)
  }

  lemma {:induction false} SectionReads(
    job: MsrvJob, lines: seq<string>, key: nat, i: nat, white: char -> bool, ks: seq<nat>) returns (ks': seq<nat>)
    requires key < i <= |lines| && JobSays(job, lines, key, i, white, ks)
    ensures JobSays(Section(lines, i, job, white), lines, key, NextKey(lines, i), white, ks')
    ensures Section(lines, i, job, white).name == job.name
    decreases |lines| - i
  {
    ks' := ks;
    hide ToolchainOf, PinOf, ChecksOf, Read, JobKey;
    if i < |lines| && JobKey(lines[i]).None? {
      PinStep(job, lines, key, i, white);
      ToolchainStep(job, lines, key, i, white);
      ks' := ChecksStep(job, lines, key, i, white, ks);
      ReadToolchain(job, lines[i], i + 1, white);
      ks' := SectionReads(Read(job, lines[i], i + 1, white), lines, key, i + 1, white, ks');
    }
  }

  // ---- The workflow --------------------------------------------------------------------

  ghost predicate IsKey(line: string, name: string) {
    line == "  " + name + ":" && (name != "" ==> name[0] != ' ' && name[0] != '#' && name[0] != '-')
  }

  ghost predicate BeginsJob(line: string) {
    exists name :: IsKey(line, name)
  }

  /** The lines from a key up to `end`: the next key, or the end of the workflow. */
  ghost predicate JobLines(lines: seq<string>, key: nat, end: nat) {
    && key < end <= |lines|
    && (forall m :: key < m < end ==> !BeginsJob(lines[m]))
    && (end < |lines| ==> BeginsJob(lines[end]))
  }

  ghost predicate IsJobAt(job: MsrvJob, lines: seq<string>, key: nat, white: char -> bool) {
    && key < |lines| && IsKey(lines[key], job.name)
    && exists end, ks :: JobLines(lines, key, end) && JobSays(job, lines, key, end, white, ks)
  }

  /** There is one job for each key from line `i` on, in order. */
  ghost predicate JobsAt(jobs: seq<MsrvJob>, lines: seq<string>, i: nat, white: char -> bool, keys: seq<nat>) {
    && |keys| == |jobs| && Rising(keys)
    && (forall k: nat :: k in keys <==> i <= k < |lines| && BeginsJob(lines[k]))
    && forall a :: 0 <= a < |jobs| ==> IsJobAt(jobs[a], lines, keys[a], white)
  }

  lemma KeyReads(line: string)
    ensures JobKey(line).Some? <==> BeginsJob(line)
    ensures JobKey(line).Some? ==> IsKey(line, JobKey(line).value)
  {
    forall name
      ensures JobKey(line) == Some(name) <==> IsKey(line, name)
    {
      JobKeyReads(line, name);
    }
    hide JobKey, IsKey;
    if JobKey(line).Some? {
      assert IsKey(line, JobKey(line).value);
    }
  }

  lemma {:induction false} NextKeyReads(lines: seq<string>, i: nat)
    requires i <= |lines|
    ensures var k := NextKey(lines, i);
      && i <= k <= |lines| && (forall m :: i <= m < k ==> !BeginsJob(lines[m]))
      && (k < |lines| ==> BeginsJob(lines[k]))
    decreases |lines| - i
  {
    hide JobKey, BeginsJob;
    if i < |lines| {
      KeyReads(lines[i]);
      if JobKey(lines[i]).None? {
        NextKeyReads(lines, i + 1);
      }
    }
  }

  lemma JobReads(lines: seq<string>, key: nat, white: char -> bool)
    requires key < |lines| && JobKey(lines[key]).Some?
    ensures IsJobAt(Section(lines, key + 1, NewJob(JobKey(lines[key]).value), white), lines, key, white)
  {
    var job := NewJob(JobKey(lines[key]).value);
    KeyReads(lines[key]);
    NothingRead(job, lines, key, white);
    NextKeyReads(lines, key + 1);
    hide JobKey, BeginsJob, IsKey, Section, NextKey, JobSays;
    var ks := SectionReads(job, lines, key, key + 1, white, []);
    assert JobLines(lines, key, NextKey(lines, key + 1));
  }

  lemma NothingRead(job: MsrvJob, lines: seq<string>, key: nat, white: char -> bool)
    requires key < |lines| && job == NewJob(job.name)
    ensures JobSays(job, lines, key, key + 1, white, [])
  {
  }

  lemma JobsStep(
    job: MsrvJob, jobs: seq<MsrvJob>, lines: seq<string>, i: nat, k: nat, white: char -> bool, keys: seq<nat>)
    requires i <= k < |lines| && (forall m :: i <= m < k ==> !BeginsJob(lines[m])) && BeginsJob(lines[k])
    requires IsJobAt(job, lines, k, white) && JobsAt(jobs, lines, k + 1, white, keys)
    ensures JobsAt([job] + jobs, lines, i, white, [k] + keys)
  {
    RisingPrepend(k, keys);
    hide Rising, BeginsJob, IsJobAt;
  }

  lemma SectionsStep(lines: seq<string>, i: nat, white: char -> bool)
    requires i <= |lines|
    ensures var k := NextKey(lines, i);
      Sections(lines, i, white) ==
        if k == |lines| then []
        else [Section(lines, k + 1, NewJob(JobKey(lines[k]).value), white)] + Sections(lines, k + 1, white)
    ensures NextKey(lines, i) < |lines| ==> JobKey(lines[NextKey(lines, i)]).Some?
  {
    hide JobKey, Section;
  }

  lemma NoJobs(lines: seq<string>, i: nat, white: char -> bool)
    requires forall m :: i <= m < |lines| ==> !BeginsJob(lines[m])
    ensures JobsAt([], lines, i, white, [])
  {
  }

  lemma {:induction false} SectionsRead(lines: seq<string>, i: nat, white: char -> bool) returns (keys: seq<nat>)
    requires i <= |lines|
    ensures JobsAt(Sections(lines, i, white), lines, i, white, keys)
    decreases |lines| - i
  {
    hide *;
    var k := NextKey(lines, i);
    NextKeyReads(lines, i);
    SectionsStep(lines, i, white);
    if k == |lines| {
      NoJobs(lines, i, white);
      keys := [];
    } else {
      JobReads(lines, k, white);
      keys := SectionsRead(lines, k + 1, white);
      var job := Section(lines, k + 1, NewJob(JobKey(lines[k]).value), white);
      JobsStep(job, Sections(lines, k + 1, white), lines, i, k, white, keys);
      keys := [k] + keys;
    }
  }

  /** The jobs kept are those that run a check and are not pinned to `stable`, in order. */
  ghost predicate KeptOf(kept: seq<MsrvJob>, jobs: seq<MsrvJob>, ps: seq<nat>) {
    && |ps| == |kept| && Rising(ps)
    && (forall p: nat :: p in ps <==> p < |jobs| && jobs[p].checks != [] && jobs[p].toolchain != "stable")
    && forall a :: 0 <= a < |ps| ==> ps[a] < |jobs| && kept[a] == jobs[ps[a]]
  }

  lemma KeptStep(kept: seq<MsrvJob>, jobs: seq<MsrvJob>, ps: seq<nat>, last: MsrvJob)
    requires KeptOf(kept, jobs, ps)
    ensures if last.checks != [] && last.toolchain != "stable" then KeptOf(kept + [last], jobs + [last], ps + [|jobs|])
            else KeptOf(kept, jobs + [last], ps)
  {
    RisingAppend(ps, |jobs|);
    hide Rising;
  }

  lemma NothingKept() returns (ps: seq<nat>)
    ensures KeptOf(Retain([]), [], ps)
  {
    ps := [];
  }

  lemma {:induction false} RetainReads(jobs: seq<MsrvJob>) returns (ps: seq<nat>)
    ensures KeptOf(Retain(jobs), jobs, ps)
  {
    hide Retain, KeptOf;
    if jobs == [] {
      ps := NothingKept();
    } else {
      var front, last := jobs[..|jobs| - 1], jobs[|jobs| - 1];
      assert jobs == front + [last];
      ps := RetainReads(front);
      KeptStep(Retain(front), front, ps, last);
      RetainOne(front, last);
      assert Retain(front) + [] == Retain(front);
      ps := if last.checks != [] && last.toolchain != "stable" then ps + [|front|] else ps;
    }
  }

  /** Of any workflow: each job key begins a job, the lines up to the next key say what is in it,
      and what is reported is those that run a check and are not pinned to `stable`. */
  lemma WorkflowReads(lines: seq<string>, white: char -> bool) returns (keys: seq<nat>, ps: seq<nat>)
    ensures JobsAt(Sections(lines, 0, white), lines, 0, white, keys)
    ensures KeptOf(Retain(Sections(lines, 0, white)), Sections(lines, 0, white), ps)
  {
    hide JobsAt, KeptOf, Sections;
    keys := SectionsRead(lines, 0, white);
    ps := RetainReads(Sections(lines, 0, white));
  }
}
