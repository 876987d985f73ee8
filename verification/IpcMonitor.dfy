/** The run-time monitor of fuzz/fuzz_targets/ipc.rs: what it asserts, line by line, about a
    session of the privileged daemon. The session itself is not part of this model; a run is any
    sequence of observed lines, and the results say what the monitor's acceptance of it means. */
module IpcMonitor {
  import opened Options

  // ---- Addresses -----------------------------------------------------------------------

  newtype Addr = a: int | 0 <= a < 0x1_0000_0000

  /** An address range; an IPv6 range holds no IPv4 address. */
  datatype IpNet = V4(base: Addr, prefix: nat) | V6(text: string)

  function Power2(n: nat): (p: nat)
    ensures p > 0
  {
    if n == 0 then 1 else 2 * Power2(n - 1)
  }

  predicate Contains(net: IpNet, addr: Addr) {
    net.V4? && net.prefix <= 32 &&
    addr as int / Power2(32 - net.prefix) == net.base as int / Power2(32 - net.prefix)
  }

  function Octet0(addr: Addr): int {
    addr as int / 0x100_0000
  }

  /** Loopback, multicast, broadcast, link-local, unspecified, "this network" and class E. */
  predicate Reserved(addr: Addr) {
    || Octet0(addr) == 127
    || 224 <= Octet0(addr) <= 239
    || addr == 0xFFFF_FFFF
    || addr as int / 0x1_0000 == 0xA9FE
    || addr == 0
    || Octet0(addr) == 0
    || Octet0(addr) >= 240
  }

  predicate IndependentlyAuthorized(addr: Addr, allow: seq<IpNet>, deny: seq<IpNet>) {
    && !Reserved(addr)
    && !(exists n :: n in deny && Contains(n, addr))
    && exists n :: n in allow && Contains(n, addr)
  }

  // ---- What the monitor sees -----------------------------------------------------------

  datatype Request = Init(allowedCidrs: seq<string>) | Probe | IcmpProbe | Shutdown

  datatype Response = Ready | Refused | Fatal | Result | HostResult

  datatype Scope = Scope(allowed: seq<IpNet>, denied: seq<IpNet>)

  /** One line: the independent parse, the session's answer, the session afterwards, the
      packets it put on the wire, and whether what it answers is read back as it was written. */
  datatype Line = Line(
    request: Option<Request>, response: Option<Response>, scope: Option<Scope>,
    terminated: bool, endedFatally: bool, emitted: seq<Addr>, roundTrips: bool)
  {
    predicate ValidInit() {
      request.Some? && request.value.Init? && request.value.allowedCidrs != []
    }

    predicate AnotherInit() {
      request.Some? && request.value.Init?
    }

    /** An answer, when there is one, survives being written and read back. */
    predicate Survives() {
      response.Some? ==> roundTrips
    }

    predicate IsFatal() {
      response == Some(Fatal)
    }

    function Cidrs(): seq<IpNet> {
      if scope.Some? then scope.value.allowed else []
    }

    function Denied(): seq<IpNet> {
      if scope.Some? then scope.value.denied else []
    }
  }

  /** The monitor's variables. */
  datatype State = State(
    runningScope: Option<seq<IpNet>>, runningAllow: Option<seq<IpNet>>, runningDeny: Option<seq<IpNet>>,
    seenFatal: bool)

  const START := State(None, None, None, false)

  // ---- One line ------------------------------------------------------------------------

  /** A line after the session ended fatally. */
  predicate Silent(l: Line) {
    l.IsFatal() && l.terminated && l.endedFatally && l.scope.None?
  }

  /** The scope check of a line before any `Fatal`, and what it records. */
  function Scoping(s: State, l: Line): Option<State> {
    if s.runningScope.None? then
      if !l.ValidInit() then
        if l.IsFatal() && l.terminated && l.scope.None? then Some(s) else None
      else if l.response != Some(Ready) then None
      else if l.scope.None? then Some(State(Some([]), None, None, s.seenFatal))
      else Some(State(Some(l.Cidrs()), Some(l.Cidrs()), Some(l.Denied()), s.seenFatal))
    else if l.AnotherInit() && !l.IsFatal() then None
    else if l.scope.Some? && l.Cidrs() != s.runningScope.value then None
    else if l.scope.None? && !l.terminated then None
    else Some(s)
  }

  function AllowFor(s: State, l: Line): seq<IpNet> {
    if l.scope.Some? then l.Cidrs() else s.runningAllow.GetOr([])
  }

  function DenyFor(s: State, l: Line): seq<IpNet> {
    if l.scope.Some? then l.Denied() else s.runningDeny.GetOr([])
  }

  predicate EmissionsAuthorized(emitted: seq<Addr>, allow: seq<IpNet>, deny: seq<IpNet>) {
    forall a :: a in emitted ==> IndependentlyAuthorized(a, allow, deny)
  }

  /** `None` when some assertion fails on this line. */
  function Step(s: State, l: Line): Option<State> {
    if s.seenFatal then if Silent(l) then Some(s) else None
    else
      match Scoping(s, l)
      case None => None
      case Some(t) =>
        if l.IsFatal() && !l.endedFatally then None
        else if !EmissionsAuthorized(l.emitted, AllowFor(t, l), DenyFor(t, l)) then None
        else if !l.Survives() then None
        else Some(t.(seenFatal := l.IsFatal()))
  }

  /** The monitor over a whole run, the latest line last. */
  function Run(lines: seq<Line>): Option<State> {
    if lines == [] then Some(START)
    else match Run(lines[..|lines| - 1])
      case None => None
      case Some(s) => Step(s, lines[|lines| - 1])
  }

  class Monitor {
    var state: State

    constructor ()
      ensures state == START
    {
      state := START;
    }

    method Observe(l: Line) returns (ok: bool)
      modifies this
      ensures ok <==> Step(old(state), l).Some?
      ensures ok ==> Step(old(state), l) == Some(state)
    {
      if state.seenFatal {
        return Silent(l);
      }
      var next := Scoping(state, l);
      if next.None? || (l.IsFatal() && !l.endedFatally) {
        return false;
      }
      state := next.value.(seenFatal := l.IsFatal());
      ok := CheckEmissions(l.emitted, AllowFor(next.value, l), DenyFor(next.value, l));
      ok := ok && l.Survives();
    }

    method CheckEmissions(emitted: seq<Addr>, allow: seq<IpNet>, deny: seq<IpNet>) returns (ok: bool)
      ensures ok <==> EmissionsAuthorized(emitted, allow, deny)
    {
      for i := 0 to |emitted|
        invariant forall k :: 0 <= k < i ==> IndependentlyAuthorized(emitted[k], allow, deny)
      {
        if !IndependentlyAuthorized(emitted[i], allow, deny) {
          return false;
        }
      }
      return true;
    }

    method Watch(lines: seq<Line>) returns (accepted: bool)
      requires state == START
      modifies this
      ensures accepted <==> Obeyed(lines)
    {
      accepted := true;
      for i := 0 to |lines|
        invariant accepted ==> Run(lines[..i]) == Some(state)
        invariant accepted
      {
        assert lines[..i + 1][..i] == lines[..i];
        accepted := Observe(lines[i]);
        if !accepted {
          RejectedForGood(lines, i + 1);
          AcceptedExactlyWhenObeyed(lines);
          return false;
        }
      }
      assert lines[..|lines|] == lines;
      AcceptedExactlyWhenObeyed(lines);
    }
  }

  lemma {:induction false} RejectedForGood(lines: seq<Line>, k: nat)
    requires k <= |lines| && Run(lines[..k]).None?
    ensures Run(lines).None?
  {
    if k == |lines| {
      assert lines[..k] == lines;
    } else {
      assert lines[..|lines| - 1][..k] == lines[..k];
      RejectedForGood(lines[..|lines| - 1], k);
    }
  }

  // ---- What a run must satisfy ---------------------------------------------------------

  /** Line `k` comes after some `Fatal`. */
  ghost predicate AfterFatal(lines: seq<Line>, k: nat) {
    exists j :: 0 <= j < k && j < |lines| && lines[j].IsFatal()
  }

  /** The first line: a valid `Init` answered `Ready`, or a refusal that ends the session. */
  predicate FirstLine(l: Line) {
    if l.ValidInit() then l.response == Some(Ready) else l.IsFatal() && l.terminated && l.scope.None?
  }

  /** A line of a running session that `first` started. */
  predicate RunningLine(first: Line, l: Line) {
    && (l.AnotherInit() ==> l.IsFatal())
    && (if l.scope.Some? then l.Cidrs() == first.Cidrs() else l.terminated)
  }

  /** The deny list in force: the session's own, or the first line's once the session is over. */
  function DenyOf(first: Line, l: Line): seq<IpNet> {
    if l.scope.Some? then l.Denied() else first.Denied()
  }

  ghost predicate LineObeys(lines: seq<Line>, k: nat)
    requires k < |lines|
  {
    var first, l := lines[0], lines[k];
    if AfterFatal(lines, k) then Silent(l)
    else
      && (if k == 0 then FirstLine(l) else RunningLine(first, l))
      && (l.IsFatal() ==> l.endedFatally)
      && EmissionsAuthorized(l.emitted, first.Cidrs(), DenyOf(first, l))
      && l.Survives()
  }

  ghost predicate Obeyed(lines: seq<Line>) {
    forall k :: 0 <= k < |lines| ==> LineObeys(lines, k)
  }

  /** The monitor's variables after an accepted run: only the first line sets them. */
  ghost function Recorded(lines: seq<Line>): State {
    if lines == [] || !lines[0].ValidInit() then START.(seenFatal := AfterFatal(lines, |lines|))
    else if lines[0].scope.None? then State(Some([]), None, None, AfterFatal(lines, |lines|))
    else State(Some(lines[0].Cidrs()), Some(lines[0].Cidrs()), Some(lines[0].Denied()), AfterFatal(lines, |lines|))
  }

  lemma ObeyedStep(lines: seq<Line>, l: Line)
    ensures Obeyed(lines + [l]) <==> Obeyed(lines) && LineObeys(lines + [l], |lines|)
    ensures AfterFatal(lines + [l], |lines|) <==> AfterFatal(lines, |lines|)
    ensures AfterFatal(lines + [l], |lines| + 1) <==> AfterFatal(lines, |lines|) || l.IsFatal()
  {
    var more := lines + [l];
    assert more[|lines|] == l;
    assert forall j :: 0 <= j < |lines| ==> more[j] == lines[j];
    forall k | 0 <= k < |lines|
      ensures LineObeys(more, k) <==> LineObeys(lines, k)
    {
      assert AfterFatal(more, k) <==> AfterFatal(lines, k);
    }
  }

  /** The monitor accepts exactly the runs in which every line obeys its rule. */
  lemma {:induction false} AcceptedExactlyWhenObeyed(lines: seq<Line>)
    ensures Run(lines).Some? <==> Obeyed(lines)
    ensures Run(lines).Some? ==> Run(lines) == Some(Recorded(lines))
  {
    if lines != [] {
      var before, l := lines[..|lines| - 1], lines[|lines| - 1];
      assert before + [l] == lines;
      AcceptedExactlyWhenObeyed(before);
      ObeyedStep(before, l);
      if Obeyed(before) {
        if before != [] && !AfterFatal(before, |before|) {
          assert LineObeys(before, 0) && !before[0].IsFatal();
        }
        hide EmissionsAuthorized, Obeyed, AfterFatal;
        StepDecides(before, l);
      }
    }
  }

  lemma StepDecides(before: seq<Line>, l: Line)
    requires before != [] && !AfterFatal(before, |before|) ==> before[0].ValidInit()
    requires AfterFatal(before + [l], |before|) <==> AfterFatal(before, |before|)
    requires AfterFatal(before + [l], |before| + 1) <==> AfterFatal(before, |before|) || l.IsFatal()
    ensures Step(Recorded(before), l).Some? <==> LineObeys(before + [l], |before|)
    ensures Step(Recorded(before), l).Some? ==> Step(Recorded(before), l) == Some(Recorded(before + [l]))
  {
    hide EmissionsAuthorized;
    var lines := before + [l];
    assert lines[|before|] == l;
    assert before != [] ==> lines[0] == before[0];
    if before == [] {
      assert !AfterFatal(before, 0);
    }
  }

  // ---- Safety of accepted runs ---------------------------------------------------------

  /** Up to and including the first `Fatal`, every packet goes outside the reserved ranges and
      inside the allow set that the first line fixed. */
  lemma AcceptedEmissionsAreAuthorized(lines: seq<Line>, k: nat, a: Addr)
    requires Run(lines).Some? && k < |lines| && !AfterFatal(lines, k) && a in lines[k].emitted
    ensures !Reserved(a) && exists n :: n in lines[0].Cidrs() && Contains(n, a)
    ensures lines[0].ValidInit() && lines[0].response == Some(Ready)
  {
    AcceptedExactlyWhenObeyed(lines);
    assert LineObeys(lines, k) && LineObeys(lines, 0);
    assert IndependentlyAuthorized(a, lines[0].Cidrs(), DenyOf(lines[0], lines[k]));
  }

  /** After a `Fatal` there is nothing but `Fatal`, and no scope; before one, a session that has
      started and still has a scope has the allow set it started with. */
  lemma AcceptedScopesAreFixed(lines: seq<Line>, k: nat)
    requires Run(lines).Some? && k < |lines|
    ensures AfterFatal(lines, k) ==> lines[k].IsFatal() && lines[k].scope.None?
    ensures !AfterFatal(lines, k) && lines[k].scope.Some? ==> lines[k].Cidrs() == lines[0].Cidrs()
    ensures k > 0 && lines[k].AnotherInit() ==> lines[k].IsFatal()
  {
    AcceptedExactlyWhenObeyed(lines);
    assert LineObeys(lines, k) && LineObeys(lines, 0);
  }

  // ---- What the monitor does not look at -----------------------------------------------

  /** The run with other packets on line `k`. */
  function Emitting(lines: seq<Line>, k: nat, emitted: seq<Addr>): seq<Line>
    requires k < |lines|
  {
    lines[k := lines[k].(emitted := emitted)]
  }

  /** Only the packets of line `k` are judged anew. */
  lemma OnlyEmissionsChange(lines: seq<Line>, k: nat, emitted: seq<Addr>)
    requires Obeyed(lines) && k < |lines|
    ensures Obeyed(Emitting(lines, k, emitted)) <==>
      AfterFatal(lines, k) || EmissionsAuthorized(emitted, lines[0].Cidrs(), DenyOf(lines[0], lines[k]))
  {
    hide EmissionsAuthorized;
    var other := Emitting(lines, k, emitted);
    assert forall j :: 0 <= j < |lines| ==> lines[j].IsFatal() == other[j].IsFatal();
    assert forall m: nat :: AfterFatal(other, m) <==> AfterFatal(lines, m);
    forall m | 0 <= m < |lines| && m != k
      ensures LineObeys(other, m)
    {
      assert LineObeys(lines, m);
    }
    assert LineObeys(lines, k);
    assert LineObeys(other, k) <==>
      AfterFatal(lines, k) || EmissionsAuthorized(emitted, lines[0].Cidrs(), DenyOf(lines[0], lines[k]));
    hide LineObeys;
  }

  /** An accepted run stays accepted with any packets whatever on line `k` exactly when that
      line comes after a `Fatal`: what a session emits from then on is not looked at. */
  lemma UncheckedExactlyAfterFatal(lines: seq<Line>, k: nat)
    requires Run(lines).Some? && k < |lines|
    ensures (forall emitted :: Run(Emitting(lines, k, emitted)).Some?) <==> AfterFatal(lines, k)
  {
    AcceptedExactlyWhenObeyed(lines);
    hide Run, Emitting, AfterFatal, Obeyed;
    forall emitted
      ensures Run(Emitting(lines, k, emitted)).Some? <==>
        AfterFatal(lines, k) || EmissionsAuthorized(emitted, lines[0].Cidrs(), DenyOf(lines[0], lines[k]))
    {
      AcceptedExactlyWhenObeyed(Emitting(lines, k, emitted));
      OnlyEmissionsChange(lines, k, emitted);
    }
    OnePacket(0, lines[0].Cidrs(), DenyOf(lines[0], lines[k]));
    assert Run(Emitting(lines, k, [0])).Some? ==> AfterFatal(lines, k);
  }

  predicate Covers(nets: seq<IpNet>, a: Addr) {
    exists n :: n in nets && Contains(n, a)
  }

  /** Up to the first `Fatal`, a packet to an address that the start allows is refused exactly
      when the deny list in force on its own line covers it. */
  lemma RefusedExactlyWhenDeniedNow(lines: seq<Line>, k: nat, a: Addr)
    requires Run(lines).Some? && k < |lines| && !AfterFatal(lines, k)
    requires !Reserved(a) && Covers(lines[0].Cidrs(), a)
    ensures Run(Emitting(lines, k, [a])).None? <==> Covers(DenyOf(lines[0], lines[k]), a)
  {
    AcceptedExactlyWhenObeyed(lines);
    AcceptedExactlyWhenObeyed(Emitting(lines, k, [a]));
    OnlyEmissionsChange(lines, k, [a]);
    OnePacket(a, lines[0].Cidrs(), DenyOf(lines[0], lines[k]));
  }

  /** The line refuses a packet to `a`. */
  ghost predicate Refuses(lines: seq<Line>, k: nat, a: Addr)
    requires k < |lines|
  {
    Run(Emitting(lines, k, [a])).None?
  }

  /** What the start denies is still denied on line `k` exactly when the deny list in force
      there covers it, address by address. */
  lemma DenialLastsExactly(lines: seq<Line>, k: nat)
    requires Run(lines).Some? && k < |lines| && !AfterFatal(lines, k)
    ensures (forall a :: Covers(lines[0].Denied(), a) ==> Refuses(lines, k, a)) <==>
      forall a :: Covers(lines[0].Denied(), a) && !Reserved(a) && Covers(lines[0].Cidrs(), a) ==>
        Covers(DenyOf(lines[0], lines[k]), a)
  {
    AcceptedExactlyWhenObeyed(lines);
    forall a
      ensures Refuses(lines, k, a) <==>
        Reserved(a) || !Covers(lines[0].Cidrs(), a) || Covers(DenyOf(lines[0], lines[k]), a)
    {
      AcceptedExactlyWhenObeyed(Emitting(lines, k, [a]));
      OnlyEmissionsChange(lines, k, [a]);
      OnePacket(a, lines[0].Cidrs(), DenyOf(lines[0], lines[k]));
    }
  }

  lemma OnePacket(a: Addr, allow: seq<IpNet>, deny: seq<IpNet>)
    ensures EmissionsAuthorized([a], allow, deny) <==> !Reserved(a) && Covers(allow, a) && !Covers(deny, a)
  {
    hide Contains, Reserved;
    var emitted := [a];
    assert emitted[0] in emitted;
  }

  /** What a session puts on the wire after its first `Fatal` is not looked at. */
  lemma EmissionsAfterFatalAreNotChecked(a: Addr)
    ensures var refusal := Line(None, Some(Fatal), None, true, true, [], true);
      Run([refusal, refusal.(emitted := [a])]).Some?
  {
    var refusal := Line(None, Some(Fatal), None, true, true, [], true);
    var lines := [refusal, refusal.(emitted := [a])];
    assert lines[0].IsFatal();
    assert LineObeys(lines, 0) && LineObeys(lines, 1);
    AcceptedExactlyWhenObeyed(lines);
  }

  /** The deny list is taken from the session each time: it may change from line to line. */
  lemma DenyListMayShrink(net: IpNet)
    ensures var first := Line(Some(Init(["x"])), Some(Ready), Some(Scope([net], [net])), false, false, [], true);
      Run([first, Line(None, None, Some(Scope([net], [])), false, false, [], true)]).Some?
  {
    var first := Line(Some(Init(["x"])), Some(Ready), Some(Scope([net], [net])), false, false, [], true);
    var lines := [first, Line(None, None, Some(Scope([net], [])), false, false, [], true)];
    assert !AfterFatal(lines, 1) && !AfterFatal(lines, 0);
    assert LineObeys(lines, 0) && LineObeys(lines, 1);
    AcceptedExactlyWhenObeyed(lines);
  }
}
