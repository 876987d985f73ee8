/** What fuzz/fuzz_targets/ipc.rs accepts, said of the observed fields of a run and of the bits
    of addresses, without the monitor's own state and tests. */
module IpcRules {
  import opened IpcMonitor
  import opened Options

  // ---- Addresses -----------------------------------------------------------------------

  /** `a` and `b` agree in their `bits` leading bits, the first of which is worth `half`. */
  predicate SameLeading(a: int, b: int, bits: nat, half: nat) {
    bits == 0 || ((a >= half <==> b >= half) && SameLeading(Below(a, half), Below(b, half), bits - 1, half / 2))
  }

  /** Without its leading bit. */
  function Below(a: int, half: nat): int {
    if a >= half then a - half else a
  }

  predicate Inside(net: IpNet, a: Addr) {
    net.V4? && net.prefix <= 32 && SameLeading(a as int, net.base as int, net.prefix, 0x8000_0000)
  }

  lemma {:induction false} PowersMultiply(m: nat, n: nat)
    ensures Power2(m + n) == Power2(m) * Power2(n)
  {
    if m > 0 {
      PowersMultiply(m - 1, n);
    }
  }

  lemma PowerOf8()
    ensures Power2(8) == 256 && Power2(7) == 128
  {
    assert Power2(4) == 16;
  }

  lemma PowerOf31()
    ensures Power2(31) == 0x8000_0000
  {
    hide Power2;
    PowerOf8();
    PowersMultiply(8, 8);
    PowersMultiply(16, 8);
    PowersMultiply(24, 7);
  }

  lemma TimesKeepsOrder(x: int, y: int, q: int)
    requires x <= y && q >= 0
    ensures x * q <= y * q
  {
  }

  lemma QuotientIs(a: int, q: int, c: int)
    requires q > 0 && c * q <= a < c * q + q
    ensures a / q == c
  {
    var d := a / q;
    assert d * q <= a < d * q + q;
    if d < c {
      TimesKeepsOrder(d + 1, c, q);
    } else if d > c {
      TimesKeepsOrder(c + 1, d, q);
    }
  }

  lemma DivideHigh(a: int, q: int, n: int)
    requires q > 0
    ensures (a + n * q) / q == a / q + n
  {
    var c := a / q;
    assert c * q <= a < c * q + q;
    assert (c + n) * q == c * q + n * q;
    QuotientIs(a + n * q, q, c + n);
  }

  lemma QuotientBelow(a: int, q: int, n: int)
    requires q > 0 && 0 <= a < n * q
    ensures 0 <= a / q < n
  {
    var c := a / q;
    assert c * q <= a < c * q + q;
    if c >= n {
      TimesKeepsOrder(n, c, q);
    }
    if c < 0 {
      TimesKeepsOrder(c + 1, 0, q);
    }
  }

  /** Whether dividing by `q` leaves the same is decided by the leading bit and by the rest. */
  lemma HighAndLow(a: int, b: int, half: int, q: int, n: int)
    requires q > 0 && n > 0 && half == n * q && 0 <= a < 2 * half && 0 <= b < 2 * half
    ensures a / q == b / q <==> (a >= half <==> b >= half) && Below(a, half) / q == Below(b, half) / q
  {
    QuotientBelow(Below(a, half), q, n);
    QuotientBelow(Below(b, half), q, n);
    DivideHigh(Below(a, half), q, n);
    DivideHigh(Below(b, half), q, n);
  }

  lemma NextPower(m: nat)
    ensures Power2(m + 1) == 2 * Power2(m) && Power2(m + 1) / 2 == Power2(m)
    ensures Power2(0) == 1
  {
  }

  /** Of numbers below `2 * Power2(m)`: they agree in their leading bits exactly when dividing
      the others away leaves the same. */
  lemma {:induction false} LeadingBits(a: int, b: int, bits: nat, m: nat)
    requires 0 <= a < 2 * Power2(m) && 0 <= b < 2 * Power2(m) && bits <= m + 1
    ensures SameLeading(a, b, bits, Power2(m)) <==> a / Power2(m + 1 - bits) == b / Power2(m + 1 - bits)
  {
    hide Power2;
    var half, q := Power2(m), Power2(m + 1 - bits);
    if bits == 0 {
      NextPower(m);
      QuotientIs(a, q, 0);
      QuotientIs(b, q, 0);
    } else {
      var n := Power2(bits - 1);
      PowersMultiply(bits - 1, m + 1 - bits);
      HighAndLow(a, b, half, q, n);
      if bits == 1 {
        NextPower(0);
        QuotientIs(Below(a, half), q, 0);
        QuotientIs(Below(b, half), q, 0);
      } else {
        NextPower(m - 1);
        LeadingBits(Below(a, half), Below(b, half), bits - 1, m - 1);
      }
    }
  }

  /** A range holds the addresses that share the leading bits of its base. */
  lemma ContainsIsInside(net: IpNet, a: Addr)
    ensures Contains(net, a) <==> Inside(net, a)
  {
    if net.V4? && net.prefix <= 32 {
      PowerOf31();
      hide Power2;
      LeadingBits(a as int, net.base as int, net.prefix, 31);
    }
  }

  /** 0.0.0.0/8, 127.0.0.0/8, 169.254.0.0/16, and everything from 224.0.0.0 on. */
  predicate InReservedRange(a: Addr) {
    a < 0x0100_0000 || 0x7F00_0000 <= a < 0x8000_0000 || 0xA9FE_0000 <= a < 0xA9FF_0000 || 0xE000_0000 <= a
  }

  lemma ReservedIsRanges(a: Addr)
    ensures Reserved(a) <==> InReservedRange(a)
  {
  }

  // ---- Lines ---------------------------------------------------------------------------

  ghost predicate InSome(nets: seq<IpNet>, a: Addr) {
    exists n :: n in nets && Inside(n, a)
  }

  function AllowedAt(l: Line): seq<IpNet> {
    if l.scope.Some? then l.scope.value.allowed else []
  }

  function DeniedAt(lines: seq<Line>, k: nat): seq<IpNet>
    requires k < |lines|
  {
    if lines[k].scope.Some? then lines[k].scope.value.denied
    else if lines[0].scope.Some? then lines[0].scope.value.denied
    else []
  }

  predicate FatalBefore(lines: seq<Line>, k: nat)
    requires k < |lines|
  {
    exists j :: 0 <= j < k && lines[j].response == Some(Fatal)
  }

  /** The session begins with an `Init` that allows something, or not at all. */
  predicate Begins(l: Line) {
    if l.request.Some? && l.request.value.Init? && l.request.value.allowedCidrs != [] then l.response == Some(Ready)
    else l.response == Some(Fatal) && l.terminated && l.scope == None
  }

  /** No second `Init` is taken, and the allow set is the first one or gone with the session. */
  predicate GoesOn(first: Line, l: Line) {
    && (l.request.Some? && l.request.value.Init? ==> l.response == Some(Fatal))
    && (if l.scope.Some? then l.scope.value.allowed == AllowedAt(first) else l.terminated)
  }

  ghost predicate Legal(lines: seq<Line>, k: nat)
    requires k < |lines|
  {
    var l := lines[k];
    if FatalBefore(lines, k) then
      l.response == Some(Fatal) && l.terminated && l.endedFatally && l.scope == None
    else
      && (if k == 0 then Begins(l) else GoesOn(lines[0], l))
      && (l.response == Some(Fatal) ==> l.endedFatally)
      && (l.response.Some? ==> l.roundTrips)
      && forall a :: a in l.emitted ==>
        !InReservedRange(a) && InSome(AllowedAt(lines[0]), a) && !InSome(DeniedAt(lines, k), a)
  }

  lemma PacketSpelled(a: Addr, allow: seq<IpNet>, deny: seq<IpNet>)
    ensures IndependentlyAuthorized(a, allow, deny) <==>
      !InReservedRange(a) && InSome(allow, a) && !InSome(deny, a)
  {
    ReservedIsRanges(a);
    hide Contains, Inside, Reserved, InReservedRange;
    forall n: IpNet
      ensures Contains(n, a) <==> Inside(n, a)
    {
      ContainsIsInside(n, a);
    }
  }

  lemma LineSpelled(lines: seq<Line>, k: nat)
    requires k < |lines|
    ensures LineObeys(lines, k) <==> Legal(lines, k)
  {
    hide IndependentlyAuthorized, InReservedRange, InSome;
    assert AfterFatal(lines, k) <==> FatalBefore(lines, k);
    forall a
      ensures IndependentlyAuthorized(a, AllowedAt(lines[0]), DeniedAt(lines, k)) <==>
        !InReservedRange(a) && InSome(AllowedAt(lines[0]), a) && !InSome(DeniedAt(lines, k), a)
    {
      PacketSpelled(a, AllowedAt(lines[0]), DeniedAt(lines, k));
    }
    hide AfterFatal, FatalBefore;
  }

  /** The monitor accepts a run exactly when each of its lines is legal where it stands. */
  lemma AcceptedExactlyWhenLegal(lines: seq<Line>)
    ensures Run(lines).Some? <==> forall k :: 0 <= k < |lines| ==> Legal(lines, k)
  {
    AcceptedExactlyWhenObeyed(lines);
    hide Run, LineObeys, Legal;
    forall k | 0 <= k < |lines|
      ensures LineObeys(lines, k) <==> Legal(lines, k)
    {
      LineSpelled(lines, k);
    }
  }
}
