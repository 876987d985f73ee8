/** How `packetd_privileged_window` (xtask/src/gates.rs) seeds the closure and what the window
    reports: a sorted list without repetition, and its total. */
module PrivilegedWindow {
  import opened CallClosure
  import opened RustBlocks
  import opened RustFunctions

  /** One line of the report: a function, where it stands, and its code lines. */
  datatype Entry = Entry(name: string, site: string, lines: nat)

  const USIZE_MAX: nat := 0xFFFF_FFFF_FFFF_FFFF

  // ---- The order of `Vec::sort` --------------------------------------------------------

  predicate TextBefore(a: string, b: string) {
    b != [] && (a == [] || a[0] < b[0] || (a[0] == b[0] && TextBefore(a[1..], b[1..])))
  }

  predicate Before(a: Entry, b: Entry) {
    || TextBefore(a.name, b.name)
    || (a.name == b.name && (TextBefore(a.site, b.site) || (a.site == b.site && a.lines < b.lines)))
  }

  lemma {:induction false} TextOrder(a: string, b: string, c: string)
    ensures !TextBefore(a, a)
    ensures TextBefore(a, b) || a == b || TextBefore(b, a)
    ensures TextBefore(a, b) && TextBefore(b, c) ==> TextBefore(a, c)
  {
    if a != [] && b != [] {
      if c != [] {
        TextOrder(a[1..], b[1..], c[1..]);
      } else {
        TextOrder(a[1..], b[1..], []);
      }
      assert a == [a[0]] + a[1..] && b == [b[0]] + b[1..];
    } else if a != [] {
      TextOrder(a[1..], [], []);
    }
  }

  lemma EntryOrder(a: Entry, b: Entry, c: Entry)
    ensures !Before(a, a)
    ensures Before(a, b) || a == b || Before(b, a)
    ensures Before(a, b) && Before(b, c) ==> Before(a, c)
  {
    TextOrder(a.name, b.name, c.name);
    TextOrder(a.site, b.site, c.site);
  }

  /** Strictly increasing: sorted, and nothing is listed twice. */
  ghost predicate Increasing(entries: seq<Entry>) {
    forall j, k :: 0 <= j < k < |entries| ==> Before(entries[j], entries[k])
  }

  /** Where `e` belongs among increasing entries. */
  method Place(entries: seq<Entry>, e: Entry) returns (at: nat)
    requires Increasing(entries)
    ensures at <= |entries|
    ensures forall k :: 0 <= k < at ==> Before(entries[k], e)
    ensures forall k :: at <= k < |entries| ==> !Before(entries[k], e)
  {
    at := 0;
    while at < |entries| && Before(entries[at], e)
      invariant at <= |entries|
      invariant forall k :: 0 <= k < at ==> Before(entries[k], e)
    {
      at := at + 1;
    }
    if at < |entries| {
      forall k | at < k < |entries|
        ensures !Before(entries[k], e)
      {
        EntryOrder(entries[at], entries[k], e);
      }
    }
  }

  /** Sorting, and dropping neighbours that are equal. */
  method SortDedup(entries: seq<Entry>) returns (out: seq<Entry>)
    ensures Increasing(out)
    ensures forall e :: e in out <==> e in entries
  {
    out := [];
    for i := 0 to |entries|
      invariant Increasing(out)
      invariant forall e :: e in out <==> e in entries[..i]
    {
      var e := entries[i];
      assert entries[..i + 1] == entries[..i] + [e];
      var at := Place(out, e);
      if at == |out| || out[at] != e {
        InsertKeepsOrder(out, e, at);
        out := out[..at] + [e] + out[at..];
      } else {
        assert e in out;
      }
    }
    assert entries[..|entries|] == entries;
  }

  lemma InsertKeepsOrder(entries: seq<Entry>, e: Entry, at: nat)
    requires Increasing(entries) && at <= |entries| && (at < |entries| ==> entries[at] != e)
    requires forall k :: 0 <= k < at ==> Before(entries[k], e)
    requires forall k :: at <= k < |entries| ==> !Before(entries[k], e)
    ensures Increasing(entries[..at] + [e] + entries[at..])
    ensures forall x :: x in entries[..at] + [e] + entries[at..] <==> x in entries || x == e
  {
    var out := entries[..at] + [e] + entries[at..];
    forall k | at <= k < |entries|
      ensures Before(e, entries[k])
    {
      EntryOrder(e, entries[at], entries[k]);
    }
    hide Before;
    assert entries == entries[..at] + entries[at..];
    forall j, k | 0 <= j < k < |out|
      ensures Before(out[j], out[k])
    {
      assert j != at ==> out[j] == entries[if j < at then j else j - 1];
      assert k != at ==> out[k] == entries[if k < at then k else k - 1];
    }
  }

  // ---- The window ----------------------------------------------------------------------

  /** `e` is the line of the report for `f`. */
  predicate Lists(e: Entry, f: PacketdFn) {
    e.name == f.name && e.site == f.site && e.lines == f.codeLines
  }

  /** Without its trailing parentheses. */
  function TrimParens(s: string): string {
    if s != [] && s[|s| - 1] == '(' then TrimParens(s[..|s| - 1]) else s
  }

  method Seeds(inlineCalls: seq<string>, open: string, close: string) returns (frontier: seq<string>)
    ensures forall k :: k in frontier <==> k in inlineCalls || k == TrimParens(open) || k == TrimParens(close)
  {
    frontier := inlineCalls;
    if TrimParens(open) !in frontier {
      frontier := frontier + [TrimParens(open)];
    }
    if TrimParens(close) !in frontier {
      frontier := frontier + [TrimParens(close)];
    }
  }

  /** The report lists exactly the functions that run, each once however many of its keys are reached. */
  method ReachableFunctions(defined: seq<PacketdFn>, seeds: seq<string>) returns (reachable: seq<Entry>)
    ensures Increasing(reachable)
    ensures forall e :: e in reachable <==>
      exists f :: Runs(defined, seeds, f) && e.name == f.name && e.site == f.site && e.lines == f.codeLines
  {
    hide Runs, Increasing;
    var chosen := Close(defined, seeds);
    var entries := [];
    for i := 0 to |chosen|
      invariant |entries| == i && forall k :: 0 <= k < i ==> Lists(entries[k], chosen[k])
    {
      entries := entries + [Entry(chosen[i].name, chosen[i].site, chosen[i].codeLines)];
    }
    forall f | f in chosen
      ensures exists e :: e in entries && Lists(e, f)
    {
      var k :| 0 <= k < |chosen| && chosen[k] == f;
      assert entries[k] in entries && Lists(entries[k], f);
    }
    reachable := SortDedup(entries);
  }

  function Sum(entries: seq<Entry>): nat {
    if entries == [] then 0 else Sum(entries[..|entries| - 1]) + entries[|entries| - 1].lines
  }

  function Saturate(n: nat): nat {
    if n < USIZE_MAX then n else USIZE_MAX
  }

  /** A sum that stops at the largest machine integer. */
  method TotalLines(inlineLines: nat, reachable: seq<Entry>) returns (total: nat)
    requires inlineLines <= USIZE_MAX
    ensures total == Saturate(inlineLines + Sum(reachable))
  {
    total := inlineLines;
    for i := 0 to |reachable|
      invariant total == Saturate(inlineLines + Sum(reachable[..i]))
    {
      assert reachable[..i + 1][..i] == reachable[..i];
      total := Saturate(total + reachable[i].lines);
    }
    assert reachable[..|reachable|] == reachable;
  }

  /** Only which keys are seeds matters, not their order or how often they are listed. */
  lemma SameSeeds(defined: seq<PacketdFn>, seeds: seq<string>, other: seq<string>, f: PacketdFn)
    requires forall k :: k in seeds <==> k in other
    ensures Runs(defined, seeds, f) <==> Runs(defined, other, f)
  {
    hide Reachable;
    assert forall g :: g in defined ==> Covers(g, g);
    forall key
      ensures Reachable(defined, seeds, key) <==> Reachable(defined, other, key)
    {
      if Reachable(defined, seeds, key) {
        ClosureIsMonotone(defined, defined, seeds, other, key);
      }
      if Reachable(defined, other, key) {
        ClosureIsMonotone(defined, defined, other, seeds, key);
      }
    }
  }

  /** The measurement: what the inline statements and the two entry points can run, and how
      many lines that is together with the inline ones. */
  method Measure(defined: seq<PacketdFn>, inlineCalls: seq<string>, inlineLines: nat, open: string, close: string)
    returns (reachable: seq<Entry>, total: nat)
    requires inlineLines <= USIZE_MAX
    ensures Increasing(reachable)
    ensures forall e :: e in reachable <==>
      exists f :: Runs(defined, inlineCalls + [TrimParens(open), TrimParens(close)], f)
                  && e.name == f.name && e.site == f.site && e.lines == f.codeLines
    ensures forall fs :: Represents(fs, defined, inlineCalls + [TrimParens(open), TrimParens(close)]) ==>
      total == if inlineLines + LinesOf(fs) < 0xFFFF_FFFF_FFFF_FFFF then inlineLines + LinesOf(fs)
               else 0xFFFF_FFFF_FFFF_FFFF
  {
    hide Runs, Increasing, Sum, LinesOf, Represents;
    var seeds := Seeds(inlineCalls, open, close);
    reachable := ReachableFunctions(defined, seeds);
    ghost var spelled := inlineCalls + [TrimParens(open), TrimParens(close)];
    forall f
      ensures Runs(defined, seeds, f) <==> Runs(defined, spelled, f)
    {
      SameSeeds(defined, seeds, spelled, f);
    }
    total := TotalLines(inlineLines, reachable);
    forall fs | Represents(fs, defined, spelled)
      ensures LinesOf(fs) == Sum(reachable)
    {
      RepresentsHasTheSum(fs, defined, spelled, reachable);
    }
  }

  // ---- What the total counts -----------------------------------------------------------

  /** Two functions that differ in name, site or code lines. */
  predicate Differ(f: PacketdFn, g: PacketdFn) {
    f.name != g.name || f.site != g.site || f.codeLines != g.codeLines
  }

  /** One running function for each name, site and number of code lines. */
  ghost predicate Represents(fs: seq<PacketdFn>, defined: seq<PacketdFn>, seeds: seq<string>) {
    && (forall j, k :: 0 <= j < k < |fs| ==> Differ(fs[j], fs[k]))
    && (forall f :: f in fs ==> Runs(defined, seeds, f))
    && (forall g :: Runs(defined, seeds, g) ==> StandsFor(fs, g))
  }

  ghost predicate StandsFor(fs: seq<PacketdFn>, g: PacketdFn) {
    exists f :: f in fs && !Differ(f, g)
  }

  function LinesOf(fs: seq<PacketdFn>): nat {
    if fs == [] then 0 else fs[0].codeLines + LinesOf(fs[1..])
  }

  predicate NoRepeats(entries: seq<Entry>) {
    forall j, k :: 0 <= j < k < |entries| ==> entries[j] != entries[k]
  }

  function Without(entries: seq<Entry>, k: nat): seq<Entry>
    requires k < |entries|
  {
    entries[..k] + entries[k + 1..]
  }

  lemma {:induction false} SumWithout(entries: seq<Entry>, k: nat)
    requires k < |entries|
    ensures Sum(entries) == entries[k].lines + Sum(Without(entries, k))
  {
    var last, rest := |entries| - 1, Without(entries, k);
    if k == last {
      assert rest == entries[..last];
    } else {
      SumWithout(entries[..last], k);
      assert rest[..|rest| - 1] == Without(entries[..last], k);
    }
  }

  lemma WithoutKeepsOthers(entries: seq<Entry>, k: nat)
    requires k < |entries| && NoRepeats(entries)
    ensures NoRepeats(Without(entries, k))
    ensures forall e :: e in Without(entries, k) <==> e in entries && e != entries[k]
  {
    var rest := Without(entries, k);
    assert entries == entries[..k] + [entries[k]] + entries[k + 1..];
    forall m | 0 <= m < |rest|
      ensures rest[m] != entries[k]
    {
      assert rest[m] == entries[if m < k then m else m + 1];
    }
  }

  lemma {:induction false} SameElementsSameSum(a: seq<Entry>, b: seq<Entry>)
    requires NoRepeats(a) && NoRepeats(b) && forall e :: e in a <==> e in b
    ensures Sum(a) == Sum(b)
    decreases |a|
  {
    hide NoRepeats, Without, Sum;
    assert b != [] ==> b[0] in b;
    if a != [] {
      assert a[0] in b;
      var k :| 0 <= k < |b| && b[k] == a[0];
      WithoutKeepsOthers(a, 0);
      WithoutKeepsOthers(b, k);
      WithoutIsShorter(a, 0);
      SameElementsSameSum(Without(a, 0), Without(b, k));
      SumWithout(a, 0);
      SumWithout(b, k);
    } else {
      assert a == b;
    }
  }

  lemma WithoutIsShorter(entries: seq<Entry>, k: nat)
    requires k < |entries|
    ensures |Without(entries, k)| == |entries| - 1
  {
  }

  ghost function EntriesOf(fs: seq<PacketdFn>): (r: seq<Entry>)
    ensures |r| == |fs| && forall k :: 0 <= k < |r| ==> Lists(r[k], fs[k])
  {
    seq(|fs|, k requires 0 <= k < |fs| => Entry(fs[k].name, fs[k].site, fs[k].codeLines))
  }

  lemma {:induction false} EntriesHaveTheLines(fs: seq<PacketdFn>)
    ensures LinesOf(fs) == Sum(EntriesOf(fs))
  {
    if fs != [] {
      EntriesHaveTheLines(fs[1..]);
      SumWithout(EntriesOf(fs), 0);
      assert Without(EntriesOf(fs), 0) == EntriesOf(fs[1..]);
    }
  }

  lemma RepresentsTheReport(
    fs: seq<PacketdFn>, defined: seq<PacketdFn>, seeds: seq<string>, reachable: seq<Entry>, e: Entry)
    requires Represents(fs, defined, seeds)
    requires forall e :: e in reachable <==> exists f :: Runs(defined, seeds, f) && Lists(e, f)
    ensures e in EntriesOf(fs) <==> e in reachable
  {
    hide Runs, EntriesOf, StandsFor;
    var entries := EntriesOf(fs);
    if e in entries {
      var k :| 0 <= k < |entries| && entries[k] == e;
      assert fs[k] in fs;
    }
    if e in reachable {
      var g :| Runs(defined, seeds, g) && Lists(e, g);
      StandsForEntry(fs, g, e);
    }
  }

  lemma StandsForEntry(fs: seq<PacketdFn>, g: PacketdFn, e: Entry)
    requires StandsFor(fs, g) && Lists(e, g)
    ensures e in EntriesOf(fs)
  {
    var f :| f in fs && !Differ(f, g);
    var k :| 0 <= k < |fs| && fs[k] == f;
    assert EntriesOf(fs)[k] == e;
  }

  lemma RepresentsHasTheSum(
    fs: seq<PacketdFn>, defined: seq<PacketdFn>, seeds: seq<string>, reachable: seq<Entry>)
    requires Represents(fs, defined, seeds) && Increasing(reachable)
    requires forall e :: e in reachable <==> exists f :: Runs(defined, seeds, f) && Lists(e, f)
    ensures LinesOf(fs) == Sum(reachable)
  {
    forall j, k | 0 <= j < k < |reachable|
      ensures reachable[j] != reachable[k]
    {
      IncreasingHasNoRepeats(reachable, j, k);
    }
    RepresentsOnce(fs, defined, seeds);
    forall e
      ensures e in EntriesOf(fs) <==> e in reachable
    {
      RepresentsTheReport(fs, defined, seeds, reachable, e);
    }
    hide *;
    EntriesHaveTheLines(fs);
    SameElementsSameSum(EntriesOf(fs), reachable);
  }

  lemma RepresentsOnce(fs: seq<PacketdFn>, defined: seq<PacketdFn>, seeds: seq<string>)
    requires Represents(fs, defined, seeds)
    ensures NoRepeats(EntriesOf(fs))
  {
  }

  /** There is such a choice for every report. */
  lemma {:induction false} ReportHasRepresentatives(
    defined: seq<PacketdFn>, seeds: seq<string>, reachable: seq<Entry>) returns (fs: seq<PacketdFn>)
    requires Increasing(reachable)
    requires forall e :: e in reachable <==> exists f :: Runs(defined, seeds, f) && Lists(e, f)
    ensures Represents(fs, defined, seeds)
  {
    hide Runs, Increasing;
    fs := [];
    for k := 0 to |reachable|
      invariant |fs| == k
      invariant forall j :: 0 <= j < k ==> Runs(defined, seeds, fs[j]) && Lists(reachable[j], fs[j])
    {
      assert reachable[k] in reachable;
      var f :| Runs(defined, seeds, f) && Lists(reachable[k], f);
      fs := fs + [f];
    }
    forall j, k | 0 <= j < k < |fs|
      ensures Differ(fs[j], fs[k])
    {
      IncreasingHasNoRepeats(reachable, j, k);
    }
    forall g | Runs(defined, seeds, g)
      ensures StandsFor(fs, g)
    {
      var e := Entry(g.name, g.site, g.codeLines);
      assert Lists(e, g);
      assert e in reachable;
      var k :| 0 <= k < |reachable| && reachable[k] == e;
      assert fs[k] in fs && !Differ(fs[k], g);
    }
  }

  /** A reported method is listed, under its type's name, as soon as a running body makes a
      method call of its name; it need not be a call on a value of that type. */
  lemma CalledMethodIsListed(
    file: string, s: string, f: Fn, p: PacketdFn, blocks: seq<Block>, k: nat,
    codeLines: string -> nat, callKeys: string -> seq<string>,
    defined: seq<PacketdFn>, seeds: seq<string>, caller: PacketdFn, reachable: seq<Entry>)
    requires Laminar(s, blocks) && Reports(file, s, f, p, blocks, codeLines, callKeys) && p in defined
    requires Shortest(blocks, f.at, k) && Runs(defined, seeds, caller) && "." + f.name in caller.calls
    requires forall e :: e in reachable <==> exists g :: Runs(defined, seeds, g) && Lists(e, g)
    ensures Entry(blocks[k].name + "::" + f.name, p.site, codeLines(s[f.body..f.end])) in reachable
  {
    MethodCallsReachMethods(file, s, f, p, blocks, codeLines, callKeys, defined, seeds, caller);
    ReportedAs(file, s, f, p, blocks, codeLines, callKeys);
    hide Runs, Reports, Laminar;
    var e := Entry(blocks[k].name + "::" + f.name, p.site, codeLines(s[f.body..f.end]));
    assert Lists(e, p);
  }

  // ---- Entry points and order, in terms of characters ----------------------------------

  /** An entry point is written as the start of a call: its name is what precedes the parentheses. */
  lemma {:induction false} EntryPointIsNamed(name: string, parens: string)
    requires name == "" || name[|name| - 1] != '('
    requires forall k :: 0 <= k < |parens| ==> parens[k] == '('
    ensures TrimParens(name + parens) == name
  {
    var s := name + parens;
    if parens == [] {
      assert s == name;
    } else {
      EntryPointIsNamed(name, parens[..|parens| - 1]);
      assert s[..|s| - 1] == name + parens[..|parens| - 1];
    }
  }

  /** Where `a` and `b` first differ, `a` has ended or has the smaller character. */
  ghost predicate FirstDiffers(a: string, b: string, k: nat) {
    k <= |a| && k < |b| && a[..k] == b[..k] && (k == |a| || a[k] < b[k])
  }

  lemma {:induction false} TextBeforeIsLexical(a: string, b: string)
    ensures TextBefore(a, b) <==> exists k: nat :: FirstDiffers(a, b, k)
  {
    if a != [] && b != [] && a[0] == b[0] {
      TextBeforeIsLexical(a[1..], b[1..]);
      if k: nat :| FirstDiffers(a[1..], b[1..], k) {
        assert a[..k + 1] == [a[0]] + a[1..][..k] && b[..k + 1] == [b[0]] + b[1..][..k];
        assert FirstDiffers(a, b, k + 1);
      }
      if k: nat :| FirstDiffers(a, b, k) {
        assert k > 0;
        assert a[1..][..k - 1] == a[..k][1..] && b[1..][..k - 1] == b[..k][1..];
        assert FirstDiffers(a[1..], b[1..], k - 1);
      }
    } else {
      assert FirstDiffers(a, b, 0) <==> TextBefore(a, b);
      assert forall k: nat :: FirstDiffers(a, b, k) && k > 0 ==> a[..k][0] == b[..k][0];
    }
  }

  /** The report is sorted by name, then by site, then by lines. */
  lemma ReportIsSorted(entries: seq<Entry>, j: nat, k: nat)
    requires Increasing(entries) && j < k < |entries|
    ensures var a, b := entries[j], entries[k];
      || (exists m: nat :: FirstDiffers(a.name, b.name, m))
      || (a.name == b.name && exists m: nat :: FirstDiffers(a.site, b.site, m))
      || (a.name == b.name && a.site == b.site && a.lines < b.lines)
  {
    TextBeforeIsLexical(entries[j].name, entries[k].name);
    TextBeforeIsLexical(entries[j].site, entries[k].site);
  }

  // ---- The total depends only on which functions run -----------------------------------

  lemma IncreasingHasNoRepeats(entries: seq<Entry>, j: nat, k: nat)
    requires Increasing(entries) && j < k < |entries|
    ensures entries[j] != entries[k]
  {
    EntryOrder(entries[j], entries[k], entries[k]);
  }

  /** Two reports of the same functions are the same report. */
  lemma {:induction false} ReportIsUnique(a: seq<Entry>, b: seq<Entry>)
    requires Increasing(a) && Increasing(b) && forall e :: e in a <==> e in b
    ensures a == b
  {
    assert a != [] ==> a[0] in a;
    assert b != [] ==> b[0] in b;
    if a != [] && b != [] {
      var m, n := |a| - 1, |b| - 1;
      LastIsLargest(a, b);
      LastIsLargest(b, a);
      EntryOrder(a[m], b[n], a[m]);
      EntryOrder(b[n], b[n], b[n]);
      EntryOrder(a[m], a[m], a[m]);
      assert a[m] == b[n];
      hide Before;
      assert a == a[..m] + [a[m]] && b == b[..n] + [b[n]];
      WithoutLast(a);
      WithoutLast(b);
      var a', b' := a[..|a| - 1], b[..|b| - 1];
      forall e
        ensures e in a' <==> e in b'
      {
        assert e in a <==> e in b;
      }
      ReportIsUnique(a', b');
    }
  }

  lemma LastIsLargest(a: seq<Entry>, b: seq<Entry>)
    requires Increasing(a) && a != [] && b != [] && forall e :: e in b ==> e in a
    ensures b[|b| - 1] == a[|a| - 1] || Before(b[|b| - 1], a[|a| - 1])
  {
    assert b[|b| - 1] in b;
    var k :| 0 <= k < |a| && a[k] == b[|b| - 1];
  }

  lemma WithoutLast(a: seq<Entry>)
    requires Increasing(a) && a != []
    ensures Increasing(a[..|a| - 1])
    ensures forall e :: e in a[..|a| - 1] <==> e in a && e != a[|a| - 1]
  {
    hide Before;
    var last, rest := a[|a| - 1], a[..|a| - 1];
    assert a == rest + [last];
    forall e | e in rest
      ensures e != last
    {
      var k :| 0 <= k < |rest| && rest[k] == e;
      IncreasingHasNoRepeats(a, k, |a| - 1);
    }
  }
}
