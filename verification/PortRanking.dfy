/** `expand_port_field` and `rank_ports` of xtask/src/main.rs, from parsed registry rows on: the
    row's transport and service name as trimmed text, its port field as the numbers in it. */
module PortRanking {
  import opened Options

  const U16_MAX := 0xFFFF

  /** A "Port Number" field: empty, one number, two numbers around a hyphen, or anything else. */
  datatype PortField = Blank | Single(port: nat) | Range(low: nat, high: nat) | Malformed {
    predicate Valid() {
      && (Single? ==> port <= U16_MAX)
      && (Range? ==> low <= U16_MAX && high <= U16_MAX)
    }
  }

  datatype Row = Row(service: string, transport: string, field: PortField)

  datatype RankedPorts = RankedPorts(top100: seq<nat>, common1000: seq<nat>)

  function UpFrom(low: nat, high: nat): (ps: seq<nat>)
    requires low <= high + 1
    ensures forall p :: p in ps <==> low <= p <= high
    decreases high + 1 - low
  {
    if low == high + 1 then [] else [low] + UpFrom(low + 1, high)
  }

  /** The field names the port. */
  predicate Names(field: PortField, p: nat) {
    match field
    case Single(q) => p == q
    case Range(low, high) => low <= p <= high
    case _ => false
  }

  function ExpandPortField(field: PortField): (ps: seq<nat>)
    requires field.Valid()
    ensures forall p :: p in ps <==> Names(field, p)
  {
    match field
    case Single(p) => [p]
    case Range(low, high) => if low <= high then UpFrom(low, high) else []
    case _ => []
  }

  predicate ValidRows(rows: seq<Row>) {
    forall r :: r in rows ==> r.field.Valid()
  }

  predicate Assigns(r: Row, p: nat) {
    r.transport == "tcp" && r.service != "" && Names(r.field, p)
  }

  /** Some row assigns the port to a named TCP service. */
  predicate Assigned(rows: seq<Row>, p: nat) {
    exists r :: r in rows && Assigns(r, p)
  }

  ghost function AssignedIn(rows: seq<Row>, low: nat, high: nat): set<nat> {
    set p: nat | low <= p <= high && Assigned(rows, p)
  }

  /** The ports that are ranked at all. */
  ghost function Rankable(rows: seq<Row>): set<nat> {
    AssignedIn(rows, 1, 49151)
  }

  // ---- Ascending enumeration of a set --------------------------------------------------

  predicate Ascending(s: seq<nat>) {
    forall j, k :: 0 <= j < k < |s| ==> s[j] < s[k]
  }

  ghost predicate Enumerates(s: seq<nat>, ports: set<nat>) {
    Ascending(s) && forall p :: p in s <==> p in ports
  }

  /** Iterating an ordered set. */
  method Enumerate(ports: set<nat>) returns (s: seq<nat>)
    ensures Enumerates(s, ports)
  {
    s := [];
    var rest := ports;
    assert ports - rest == {};
    while rest != {}
      invariant rest <= ports && Enumerates(s, ports - rest)
      invariant forall p, q :: p in s && q in rest ==> p < q
      decreases rest
    {
      var p := Least(rest);
      assert ports - (rest - {p}) == (ports - rest) + {p};
      OneMorePort(s, ports - rest, p);
      s := s + [p];
      rest := rest - {p};
    }
    assert ports - rest == ports;
  }

  lemma OneMorePort(s: seq<nat>, ports: set<nat>, p: nat)
    requires Enumerates(s, ports) && forall q :: q in s ==> q < p
    ensures Enumerates(s + [p], ports + {p})
  {
    assert forall k :: 0 <= k < |s| ==> s[k] in s;
  }

  method Least(ports: set<nat>) returns (p: nat)
    requires ports != {}
    ensures p in ports && forall q :: q in ports ==> p <= q
  {
    p :| p in ports;
    var rest := ports - {p};
    while rest != {}
      invariant rest <= ports && p in ports
      invariant forall q :: q in ports && q !in rest ==> p <= q
      decreases rest
    {
      var q :| q in rest;
      if q < p {
        p := q;
      }
      rest := rest - {q};
    }
  }

  lemma WithoutLast(s: seq<nat>, ports: set<nat>)
    requires Enumerates(s, ports) && s != []
    ensures var last := s[|s| - 1];
      last in ports && Enumerates(s[..|s| - 1], ports - {last}) && forall p :: p in ports ==> p <= last
  {
    var last, front := s[|s| - 1], s[..|s| - 1];
    assert s == front + [last] && last in s;
    assert forall k :: 0 <= k < |front| ==> front[k] < last;
  }

  lemma {:induction false} EnumerationSize(s: seq<nat>, ports: set<nat>)
    requires Enumerates(s, ports)
    ensures |s| == |ports|
  {
    if s == [] {
      assert forall p :: p in ports ==> p in s;
      assert ports == {};
    } else {
      var last := s[|s| - 1];
      WithoutLast(s, ports);
      EnumerationSize(s[..|s| - 1], ports - {last});
      assert ports == (ports - {last}) + {last};
    }
  }

  /** A set has only one ascending enumeration, so a ranking is determined by its set. */
  lemma {:induction false} EnumerationIsUnique(s: seq<nat>, t: seq<nat>, ports: set<nat>)
    requires Enumerates(s, ports) && Enumerates(t, ports)
    ensures s == t
  {
    EnumerationSize(s, ports);
    EnumerationSize(t, ports);
    if s != [] {
      var a, b := s[|s| - 1], t[|t| - 1];
      WithoutLast(s, ports);
      WithoutLast(t, ports);
      hide Enumerates;
      assert a == b;
      EnumerationIsUnique(s[..|s| - 1], t[..|t| - 1], ports - {a});
      assert s == s[..|s| - 1] + [a] && t == t[..|t| - 1] + [b];
    }
  }

  // ---- The ranking ---------------------------------------------------------------------

  method Collect(rows: seq<Row>) returns (system: set<nat>, user: set<nat>)
    requires ValidRows(rows)
    ensures system == AssignedIn(rows, 1, 1023) && user == AssignedIn(rows, 1024, 49151)
  {
    system, user := {}, {};
    for i := 0 to |rows|
      invariant system == AssignedIn(rows[..i], 1, 1023) && user == AssignedIn(rows[..i], 1024, 49151)
    {
      OneMoreRow(rows, i, 1, 1023);
      OneMoreRow(rows, i, 1024, 49151);
      if rows[i].transport == "tcp" && rows[i].service != "" {
        system, user := AddPorts(ExpandPortField(rows[i].field), system, user);
      }
    }
    assert rows[..|rows|] == rows;
  }

  method AddPorts(ports: seq<nat>, system: set<nat>, user: set<nat>) returns (system': set<nat>, user': set<nat>)
    ensures system' == system + set p | p in ports && 1 <= p <= 1023
    ensures user' == user + set p | p in ports && 1024 <= p <= 49151
  {
    system', user' := system, user;
    for k := 0 to |ports|
      invariant system' == system + set p | p in ports[..k] && 1 <= p <= 1023
      invariant user' == user + set p | p in ports[..k] && 1024 <= p <= 49151
    {
      assert ports[..k + 1] == ports[..k] + [ports[k]];
      if 1 <= ports[k] <= 1023 {
        system' := system' + {ports[k]};
      } else if 1024 <= ports[k] <= 49151 {
        user' := user' + {ports[k]};
      }
    }
    assert ports[..|ports|] == ports;
  }

  lemma OneMoreRow(rows: seq<Row>, i: nat, low: nat, high: nat)
    requires i < |rows|
    ensures AssignedIn(rows[..i + 1], low, high) ==
      AssignedIn(rows[..i], low, high) + set p: nat | low <= p <= high && Assigns(rows[i], p)
  {
    assert rows[..i + 1] == rows[..i] + [rows[i]];
  }

  lemma EnumeratesBoth(low: seq<nat>, high: seq<nat>, system: set<nat>, user: set<nat>)
    requires Enumerates(low, system) && Enumerates(high, user)
    requires forall p, q :: p in system && q in user ==> p < q
    ensures Enumerates(low + high, system + user)
  {
    var all := low + high;
    assert forall k :: 0 <= k < |low| ==> low[k] in system;
    assert forall k :: 0 <= k < |high| ==> high[k] in user;
  }

  predicate Leads(ranked: RankedPorts, all: seq<nat>) {
    |all| >= 1000 && ranked.common1000 == all[..1000] && ranked.top100 == all[..100]
  }

  /** The first thousand rankable ports in ascending order, and the first hundred of those; or
      nothing, when there are not so many. */
  ghost predicate IsRanking(rows: seq<Row>, ranked: Option<RankedPorts>) {
    && (ranked.Some? <==> |Rankable(rows)| >= 1000)
    && (ranked.Some? ==> exists all :: Enumerates(all, Rankable(rows)) && Leads(ranked.value, all))
  }

  lemma TwoRanges(rows: seq<Row>)
    ensures Rankable(rows) == AssignedIn(rows, 1, 1023) + AssignedIn(rows, 1024, 49151)
    ensures forall p, q :: p in AssignedIn(rows, 1, 1023) && q in AssignedIn(rows, 1024, 49151) ==> p < q
  {
    hide Assigned;
  }

  method RankPorts(rows: seq<Row>) returns (ranked: Option<RankedPorts>)
    requires ValidRows(rows)
    ensures IsRanking(rows, ranked)
  {
    hide Rankable, AssignedIn, Enumerates;
    var system, user := Collect(rows);
    TwoRanges(rows);
    var low := Enumerate(system);
    var high := Enumerate(user);
    var all := low + high;
    EnumeratesBoth(low, high, system, user);
    EnumerationSize(all, Rankable(rows));
    if |all| < 1000 {
      return None;
    }
    return Some(RankedPorts(all[..100], all[..1000]));
  }

  /** Two rankings of the same rows are the same, whatever the order of the rows and however
      often they are repeated. */
  lemma RankingIgnoresOrder(rows: seq<Row>, other: seq<Row>, a: Option<RankedPorts>, b: Option<RankedPorts>)
    requires forall r :: r in rows <==> r in other
    requires IsRanking(rows, a) && IsRanking(other, b)
    ensures a == b
  {
    assert Rankable(rows) == Rankable(other);
    hide Rankable, Enumerates;
    if a.Some? {
      var s :| Enumerates(s, Rankable(rows)) && Leads(a.value, s);
      var t :| Enumerates(t, Rankable(rows)) && Leads(b.value, t);
      EnumerationIsUnique(s, t, Rankable(rows));
    }
  }

  /** A range counts both of its ends and everything between, in ascending order. */
  lemma {:induction false} RangeIsInclusive(low: nat, high: nat)
    requires low <= high <= U16_MAX
    ensures var ps := ExpandPortField(Range(low, high));
      |ps| == high - low + 1 && forall k :: 0 <= k < |ps| ==> ps[k] == low + k
    decreases high - low
  {
    assert UpFrom(high + 1, high) == [];
    if low < high {
      RangeIsInclusive(low + 1, high);
    }
  }

  /** A port is ranked when it is from 1 to 49151 and a row with a service name gives it to TCP,
      alone or in a range. */
  lemma RankableSpelled(rows: seq<Row>, p: nat)
    ensures p in Rankable(rows) <==>
      1 <= p <= 49151 && exists r :: r in rows && r.transport == "tcp" && r.service != "" && Gives(r.field, p)
  {
    hide Names;
    forall r: Row
      ensures Names(r.field, p) <==> Gives(r.field, p)
    {
      GivesIsNames(r.field, p);
    }
  }

  predicate Gives(field: PortField, p: nat) {
    field == Single(p) || (field.Range? && field.low <= p && p <= field.high)
  }

  lemma GivesIsNames(field: PortField, p: nat)
    ensures Names(field, p) <==> Gives(field, p)
  {
  }
}
