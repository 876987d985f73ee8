/** `RunRecord::median_ms` and `losses` of xtask/src/bench.rs: where the project's own scanner
    loses, derived from the recorded runs. Messages are data here, and a ratio is not computed. */
module Losses {
  import opened Options
  import opened Decimals
  import opened Scoring

  /** A recorded run; `ran` is that no reason for its absence is recorded. */
  datatype RunRecord = RunRecord(
    variant: string, scanner: string, operation: string, identifiesServices: bool,
    milliseconds: Option<seq<nat>>, accuracy: Option<Accuracy>, ran: bool)
  {
    function MedianMs(): Option<nat> {
      if milliseconds.None? || milliseconds.value == [] then None
      else Some(Sorted(milliseconds.value)[|milliseconds.value| / 2])
    }
  }

  datatype Loss =
    | WallClock(us: RunRecord, other: RunRecord, ourMs: nat, theirMs: nat)
    | OpenPorts(us: RunRecord, other: RunRecord)
    | IdentificationPerEndpoint(us: RunRecord, other: RunRecord, lost: set<string>)
    | IdentificationInTotal(us: RunRecord, other: RunRecord)
    | VersionIdentification(us: RunRecord, other: RunRecord)
    | RecordedGap(at: Endpoint, why: string)

  // ---- The median ----------------------------------------------------------------------

  predicate Ascending(s: seq<nat>) {
    forall j, k :: 0 <= j < k < |s| ==> s[j] <= s[k]
  }

  function Insert(x: nat, s: seq<nat>): (r: seq<nat>)
    ensures multiset(r) == multiset(s) + multiset{x} && |r| == |s| + 1
  {
    if s == [] || x <= s[0] then [x] + s
    else
      assert s == [s[0]] + s[1..];
      [s[0]] + Insert(x, s[1..])
  }

  function Sorted(s: seq<nat>): (r: seq<nat>)
    ensures multiset(r) == multiset(s) && |r| == |s|
  {
    if s == [] then []
    else
      assert s == [s[0]] + s[1..];
      Insert(s[0], Sorted(s[1..]))
  }

  lemma {:induction false} InsertAscends(x: nat, s: seq<nat>)
    requires Ascending(s)
    ensures Ascending(Insert(x, s))
  {
    if s != [] && x > s[0] {
      InsertAscends(x, s[1..]);
      var rest := Insert(x, s[1..]);
      forall k | 0 <= k < |rest|
        ensures s[0] <= rest[k]
      {
        assert rest[k] in multiset(rest);
        assert rest[k] == x || rest[k] in s[1..];
      }
    }
  }

  lemma {:induction false} SortedAscends(s: seq<nat>)
    ensures Ascending(Sorted(s))
  {
    if s != [] {
      SortedAscends(s[1..]);
      InsertAscends(s[0], Sorted(s[1..]));
    }
  }

  /** How many entries satisfy the bound. */
  function CountBelow(s: seq<nat>, m: nat): (n: nat)
    ensures n <= |s|
  {
    if s == [] then 0 else CountBelow(s[1..], m) + if s[0] < m then 1 else 0
  }

  lemma {:induction false} CountInsert(x: nat, s: seq<nat>, m: nat)
    ensures CountBelow(Insert(x, s), m) == CountBelow(s, m) + if x < m then 1 else 0
  {
    if s == [] || x <= s[0] {
      assert ([x] + s)[1..] == s;
    } else {
      CountInsert(x, s[1..], m);
      assert ([s[0]] + Insert(x, s[1..]))[1..] == Insert(x, s[1..]);
    }
  }

  lemma {:induction false} CountSorted(s: seq<nat>, m: nat)
    ensures CountBelow(Sorted(s), m) == CountBelow(s, m)
  {
    if s != [] {
      CountSorted(s[1..], m);
      CountInsert(s[0], Sorted(s[1..]), m);
    }
  }

  lemma {:induction false} CountAscending(s: seq<nat>, k: nat, m: nat)
    requires Ascending(s) && k < |s|
    ensures m <= s[k] ==> CountBelow(s, m) <= k
    ensures s[k] < m ==> CountBelow(s, m) > k
  {
    if k > 0 {
      CountAscending(s[1..], k - 1, m);
    } else if m <= s[0] {
      NoneBelow(s, m);
    }
  }

  lemma {:induction false} NoneBelow(s: seq<nat>, m: nat)
    requires forall k :: 0 <= k < |s| ==> m <= s[k]
    ensures CountBelow(s, m) == 0
  {
    if s != [] {
      NoneBelow(s[1..], m);
    }
  }

  /** The median is one of the times, at most half of the times (rounded down) are strictly
      below it, and more than half are not above it; no other number has both properties. */
  lemma MedianSplitsTheTimes(r: RunRecord, m: nat)
    requires r.milliseconds.Some? && r.milliseconds.value != []
    ensures r.MedianMs() == Some(m) <==>
      var times := r.milliseconds.value;
      m in times && CountBelow(times, m) <= |times| / 2 < CountBelow(times, m + 1)
  {
    var times := r.milliseconds.value;
    SortedAscends(times);
    CountSorted(times, m);
    CountSorted(times, m + 1);
    KthOf(Sorted(times), |times| / 2, m);
    InSorted(times, Sorted(times)[|times| / 2]);
    hide Sorted, CountBelow, Ascending;
  }

  lemma KthOf(sorted: seq<nat>, k: nat, m: nat)
    requires Ascending(sorted) && k < |sorted|
    ensures sorted[k] == m <==> CountBelow(sorted, m) <= k < CountBelow(sorted, m + 1)
  {
    CountAscending(sorted, k, m);
    CountAscending(sorted, k, m + 1);
  }

  lemma InSorted(s: seq<nat>, x: nat)
    ensures x in Sorted(s) <==> x in s
  {
    assert x in multiset(Sorted(s)) <==> x in multiset(s);
  }

  // ---- The losses ----------------------------------------------------------------------

  ghost predicate Ours(runs: seq<RunRecord>, r: RunRecord) {
    r in runs && r.scanner == "bathy" && r.ran && r.accuracy.Some?
  }

  ghost predicate Theirs(runs: seq<RunRecord>, r: RunRecord) {
    r in runs && r.scanner != "bathy" && r.ran && r.accuracy.Some?
  }

  function SetOf(xs: seq<string>): set<string> {
    set x | x in xs
  }

  /** Endpoints where the other run names the lab's product and ours does not. */
  function Lost(us: RunRecord, other: RunRecord): set<string>
    requires us.accuracy.Some? && other.accuracy.Some?
  {
    SetOf(other.accuracy.value.productsNamedAt) - SetOf(us.accuracy.value.productsNamedAt)
  }

  /** Both runs try to name what they find. */
  predicate BothIdentify(us: RunRecord, other: RunRecord) {
    us.identifiesServices && other.identifiesServices
  }

  /** The loss is one that this pair of runs shows. */
  ghost predicate Shown(us: RunRecord, other: RunRecord, l: Loss)
    requires us.accuracy.Some? && other.accuracy.Some?
  {
    var ours, theirs := us.accuracy.value, other.accuracy.value;
    match l
    case WallClock(u, o, ourMs, theirMs) =>
      u == us && o == other && us.MedianMs() == Some(ourMs) && other.MedianMs() == Some(theirMs) && theirMs < ourMs
    case OpenPorts(u, o) => u == us && o == other && theirs.foundOpen > ours.foundOpen
    case IdentificationPerEndpoint(u, o, lost) =>
      u == us && o == other && BothIdentify(us, other) && lost == Lost(us, other) && lost != {}
    case IdentificationInTotal(u, o) =>
      u == us && o == other && BothIdentify(us, other) && theirs.productsNamed > ours.productsNamed
    case VersionIdentification(u, o) =>
      u == us && o == other && BothIdentify(us, other) && theirs.versionsNamed > ours.versionsNamed
    case RecordedGap(_, _) => false
  }

  method PairLosses(us: RunRecord, other: RunRecord) returns (out: seq<Loss>)
    requires us.accuracy.Some? && other.accuracy.Some?
    ensures forall l :: l in out <==> Shown(us, other, l)
  {
    hide Lost, RunRecord.MedianMs;
    out := [];
    var ourMs, theirMs := us.MedianMs(), other.MedianMs();
    if ourMs.Some? && theirMs.Some? && theirMs.value < ourMs.value {
      out := [WallClock(us, other, ourMs.value, theirMs.value)];
    }
    var ours, theirs := us.accuracy.value, other.accuracy.value;
    if theirs.foundOpen > ours.foundOpen {
      out := out + [OpenPorts(us, other)];
    }
    if !BothIdentify(us, other) {
      return;
    }
    var lost := Lost(us, other);
    if lost != {} {
      out := out + [IdentificationPerEndpoint(us, other, lost)];
    }
    if theirs.productsNamed > ours.productsNamed {
      out := out + [IdentificationInTotal(us, other)];
    }
    if theirs.versionsNamed > ours.versionsNamed {
      out := out + [VersionIdentification(us, other)];
    }
  }

  /** A loss by endpoint is shown exactly when both runs identify services and the other names a
      product somewhere ours does not; it lists these places and no others. */
  lemma EndpointLossSpelled(us: RunRecord, other: RunRecord, lost: set<string>)
    requires us.accuracy.Some? && other.accuracy.Some?
    ensures Shown(us, other, IdentificationPerEndpoint(us, other, lost)) <==>
      && us.identifiesServices && other.identifiesServices && lost != {}
      && forall at :: at in lost <==>
        at in other.accuracy.value.productsNamedAt && at !in us.accuracy.value.productsNamedAt
  {
    hide RunRecord.MedianMs;
  }

  /** The other kinds of loss compare one number each. */
  lemma OtherLossesSpelled(us: RunRecord, other: RunRecord)
    requires us.accuracy.Some? && other.accuracy.Some?
    ensures var ours, theirs := us.accuracy.value, other.accuracy.value;
      && (Shown(us, other, OpenPorts(us, other)) <==> theirs.foundOpen > ours.foundOpen)
      && (Shown(us, other, IdentificationInTotal(us, other)) <==>
        us.identifiesServices && other.identifiesServices && theirs.productsNamed > ours.productsNamed)
      && (Shown(us, other, VersionIdentification(us, other)) <==>
        us.identifiesServices && other.identifiesServices && theirs.versionsNamed > ours.versionsNamed)
  {
    hide RunRecord.MedianMs, Lost;
  }

  /** `l` is shown by some pair of runs that both have a score. */
  ghost predicate Between(ours: seq<RunRecord>, theirs: seq<RunRecord>, l: Loss) {
    exists us, other ::
      us in ours && other in theirs && us.accuracy.Some? && other.accuracy.Some? && Shown(us, other, l)
  }

  method LossesOf(us: RunRecord, theirs: seq<RunRecord>) returns (out: seq<Loss>)
    requires us.accuracy.Some?
    ensures forall l :: l in out <==> Between([us], theirs, l)
  {
    hide Shown;
    out := [];
    for i := 0 to |theirs|
      invariant forall l :: l in out <==> Between([us], theirs[..i], l)
    {
      assert theirs[..i + 1] == theirs[..i] + [theirs[i]];
      if theirs[i].accuracy.Some? {
        var more := PairLosses(us, theirs[i]);
        out := out + more;
      }
    }
    assert theirs[..|theirs|] == theirs;
  }

  /** Everything the report must contain, and nothing else. */
  ghost predicate IsLoss(runs: seq<RunRecord>, lab: Lab, l: Loss) {
    || (exists us, other :: Ours(runs, us) && Theirs(runs, other) && Shown(us, other, l))
    || (l.RecordedGap? && l.at in lab.gaps && lab.gaps[l.at] == l.why)
  }

  /** Every disadvantage by median is listed with both medians, and nothing else is. */
  ghost predicate ListsSlowerMedians(runs: seq<RunRecord>, out: seq<Loss>) {
    forall us, other, ours, theirs ::
      Ours(runs, us) && Theirs(runs, other) && us.MedianMs() == Some(ours) && other.MedianMs() == Some(theirs) ==>
        (WallClock(us, other, ours, theirs) in out <==> theirs < ours)
  }

  method FindLosses(runs: seq<RunRecord>, lab: Lab) returns (out: seq<Loss>)
    ensures forall l :: l in out <==> IsLoss(runs, lab, l)
    ensures ListsSlowerMedians(runs, out)
  {
    hide Shown, ListsSlowerMedians;
    var ours, theirs := [], [];
    for i := 0 to |runs|
      invariant forall r :: r in ours <==> r in runs[..i] && r.scanner == "bathy" && r.ran
      invariant forall r :: r in theirs <==> r in runs[..i] && r.scanner != "bathy" && r.ran
    {
      assert runs[..i + 1] == runs[..i] + [runs[i]];
      if runs[i].ran {
        if runs[i].scanner == "bathy" {
          ours := ours + [runs[i]];
        } else {
          theirs := theirs + [runs[i]];
        }
      }
    }
    assert runs[..|runs|] == runs;
    out := [];
    for i := 0 to |ours|
      invariant forall l :: l in out <==> Between(ours[..i], theirs, l)
    {
      assert ours[..i + 1] == ours[..i] + [ours[i]];
      if ours[i].accuracy.Some? {
        var more := LossesOf(ours[i], theirs);
        out := out + more;
      }
    }
    assert ours[..|ours|] == ours;
    var gaps := Gaps(lab);
    out := out + gaps;
    SlowerMediansAreListed(runs, lab, out);
  }

  lemma SlowerMediansAreListed(runs: seq<RunRecord>, lab: Lab, out: seq<Loss>)
    requires forall l :: l in out <==> IsLoss(runs, lab, l)
    ensures ListsSlowerMedians(runs, out)
  {
    forall us, other, ours, theirs | Ours(runs, us) && Theirs(runs, other)
        && us.MedianMs() == Some(ours) && other.MedianMs() == Some(theirs)
      ensures WallClock(us, other, ours, theirs) in out <==> theirs < ours
    {
      assert theirs < ours ==> Shown(us, other, WallClock(us, other, ours, theirs));
    }
  }

  method Gaps(lab: Lab) returns (out: seq<Loss>)
    ensures forall l :: l in out <==> l.RecordedGap? && l.at in lab.gaps && lab.gaps[l.at] == l.why
  {
    out := [];
    var keys := lab.gaps.Keys;
    var rest := keys;
    while rest != {}
      invariant rest <= keys
      invariant forall l :: l in out <==> l.RecordedGap? && l.at in keys - rest && lab.gaps[l.at] == l.why
      decreases rest
    {
      var at :| at in rest;
      out := out + [RecordedGap(at, lab.gaps[at])];
      rest := rest - {at};
    }
  }

  // ---- What a reader may rely on -------------------------------------------------------

  lemma {:induction false} DistinctSize(xs: seq<string>)
    requires Distinct(xs)
    ensures |SetOf(xs)| == |xs|
  {
    if xs != [] {
      DistinctSize(xs[1..]);
      assert SetOf(xs) == SetOf(xs[1..]) + {xs[0]};
      assert xs[0] !in xs[1..];
    }
  }

  lemma NothingMoreMeansNoLarger(s: set<string>, t: set<string>)
    ensures s - t == {} ==> |s| <= |t|
  {
    if s - t == {} {
      assert forall x :: x in s && x !in t ==> x in s - t;
      assert t == s + (t - s);
    }
  }

  /** The count of named products is the number of endpoints listed, each once. */
  ghost predicate Consistent(a: Accuracy) {
    Distinct(a.productsNamedAt) && a.productsNamed == |a.productsNamedAt|
  }

  /** What `score` returns is consistent, whatever was observed. */
  lemma ScoresAreConsistent(lab: Lab, observed: Observed, lower: string -> string, a: Accuracy)
    requires IsScore(lab, observed, lower, a)
    ensures Consistent(a)
  {
  }

  ghost predicate Scored(r: RunRecord) {
    r.accuracy.Some? && Consistent(r.accuracy.value)
  }

  lemma MoreNamesMeansLost(us: RunRecord, other: RunRecord)
    requires Scored(us) && Scored(other)
    requires other.accuracy.value.productsNamed > us.accuracy.value.productsNamed
    ensures Lost(us, other) != {}
  {
    var ours, theirs := us.accuracy.value.productsNamedAt, other.accuracy.value.productsNamedAt;
    DistinctSize(ours);
    DistinctSize(theirs);
    hide SetOf;
    NothingMoreMeansNoLarger(SetOf(theirs), SetOf(ours));
  }

  /** Losing in total means losing somewhere: the pair's per-endpoint loss is listed too. */
  lemma TotalLossHasAnEndpoint(runs: seq<RunRecord>, lab: Lab, us: RunRecord, other: RunRecord)
    requires Scored(us) && Scored(other)
    requires Ours(runs, us) && Theirs(runs, other)
    requires IsLoss(runs, lab, IdentificationInTotal(us, other))
    ensures Lost(us, other) != {}
    ensures IsLoss(runs, lab, IdentificationPerEndpoint(us, other, Lost(us, other)))
  {
    hide Lost, Scored;
    MoreNamesMeansLost(us, other);
    assert Shown(us, other, IdentificationPerEndpoint(us, other, Lost(us, other)));
  }
}
