/** `score` of xtask/src/bench.rs: one scanner's observations against the lab's ground truth.
    Ordered sets are sets here, so the order within a list of endpoints is left open; folding to
    lower case is a parameter. */
module Scoring {
  import opened Options
  import opened Decimals
  import opened TextSearch

  datatype Product = Product(product: string, version: Option<string>)

  datatype Identification = Identification(service: Option<string>, product: Option<string>, version: Option<string>)

  datatype Lab = Lab(
    targets: seq<string>, ports: seq<nat>, open: set<Endpoint>, products: map<Endpoint, Product>,
    gaps: map<Endpoint, string>)

  datatype Observed = Observed(open: set<Endpoint>, identified: map<Endpoint, Identification>)

  /** An endpoint whose product was not named, and what was reported instead. */
  datatype Missed = Missed(at: string, lab: string, reported: Option<string>)

  datatype Accuracy = Accuracy(
    expectedOpen: nat, foundOpen: nat, falseNegatives: seq<string>, falsePositives: seq<string>,
    productsExpected: nat, productsNamed: nat, productsNamedAt: seq<string>, productsMissed: seq<Missed>,
    versionsExpected: nat, versionsNamed: nat)

  predicate Contains(s: string, t: string) {
    Find(s, t).Some?
  }

  predicate ProductMatches(expected: string, reported: string, lower: string -> string) {
    var e, r := lower(expected), lower(reported);
    e != [] && r != [] && (Contains(e, r) || Contains(r, e))
  }

  predicate VersionMatches(expected: string, reported: string, lower: string -> string) {
    expected != [] && lower(expected) <= lower(reported)
  }

  // ---- What is scored ------------------------------------------------------------------

  predicate InScope(lab: Lab, e: Endpoint) {
    e.port in lab.ports && e.ip in lab.targets
  }

  function Scoped(lab: Lab, open: set<Endpoint>): set<Endpoint> {
    set e | e in open && InScope(lab, e)
  }

  predicate NamesProduct(lab: Lab, observed: Observed, e: Endpoint, lower: string -> string) {
    && e in lab.products && e in observed.identified && observed.identified[e].product.Some?
    && ProductMatches(lab.products[e].product, observed.identified[e].product.value, lower)
  }

  predicate HasVersion(lab: Lab, e: Endpoint) {
    e in lab.products && lab.products[e].version.Some?
  }

  predicate NamesVersion(lab: Lab, observed: Observed, e: Endpoint, lower: string -> string) {
    && HasVersion(lab, e) && e in observed.identified && observed.identified[e].version.Some?
    && VersionMatches(lab.products[e].version.value, observed.identified[e].version.value, lower)
  }

  /** `texts` shows each endpoint of `es` once, and nothing else. */
  ghost predicate Lists(texts: seq<string>, es: set<Endpoint>) {
    && |texts| == |es| && Distinct(texts)
    && forall t :: t in texts <==> exists e :: e in es && Show(e) == t
  }

  ghost predicate Distinct<T>(xs: seq<T>) {
    forall j, k :: 0 <= j < k < |xs| ==> xs[j] != xs[k]
  }

  method ShowAll(es: set<Endpoint>) returns (texts: seq<string>)
    ensures Lists(texts, es)
  {
    texts := [];
    var rest := es;
    assert es - rest == {};
    while rest != {}
      invariant rest <= es
      invariant Lists(texts, es - rest)
      decreases rest
    {
      var e :| e in rest;
      assert es - (rest - {e}) == (es - rest) + {e};
      ListsOneMore(texts, es - rest, e);
      texts := texts + [Show(e)];
      rest := rest - {e};
    }
    assert es - rest == es;
  }

  lemma ListsOneMore(texts: seq<string>, es: set<Endpoint>, e: Endpoint)
    requires Lists(texts, es) && e !in es
    ensures Lists(texts + [Show(e)], es + {e})
  {
    if Show(e) in texts {
      var d :| d in es && Show(d) == Show(e);
      ShowIsInjective(d, e);
    }
  }

  // ---- The score -----------------------------------------------------------------------

  ghost function Named(lab: Lab, observed: Observed, lower: string -> string, es: set<Endpoint>): set<Endpoint> {
    set e | e in es && NamesProduct(lab, observed, e, lower)
  }

  ghost function Versioned(lab: Lab, es: set<Endpoint>): set<Endpoint> {
    set e | e in es && HasVersion(lab, e)
  }

  ghost function VersionNamed(lab: Lab, observed: Observed, lower: string -> string, es: set<Endpoint>): set<Endpoint> {
    set e | e in es && NamesVersion(lab, observed, e, lower)
  }

  function MissOf(lab: Lab, observed: Observed, e: Endpoint): Missed
    requires e in lab.products
  {
    Missed(Show(e), lab.products[e].product, if e in observed.identified then observed.identified[e].product else None)
  }

  function Places(missed: seq<Missed>): seq<string> {
    seq(|missed|, k requires 0 <= k < |missed| => missed[k].at)
  }

  /** `missed` has one entry for each endpoint of `es`, and says what was reported there. */
  ghost predicate Misses(lab: Lab, observed: Observed, missed: seq<Missed>, es: set<Endpoint>) {
    && Lists(Places(missed), es)
    && forall m :: m in missed ==> exists e :: e in es && e in lab.products && m == MissOf(lab, observed, e)
  }

  /** What the loop over the lab's products accumulates. */
  datatype Tally = Tally(
    namedAt: seq<string>, missed: seq<Missed>, named: nat, versionsExpected: nat, versionsNamed: nat)

  /** `t` is right for the endpoints of `es`. */
  ghost predicate Counted(lab: Lab, observed: Observed, lower: string -> string, es: set<Endpoint>, t: Tally) {
    && Lists(t.namedAt, Named(lab, observed, lower, es)) && t.named == |t.namedAt|
    && Misses(lab, observed, t.missed, es - Named(lab, observed, lower, es))
    && t.versionsExpected == |Versioned(lab, es)|
    && t.versionsNamed == |VersionNamed(lab, observed, lower, es)|
  }

  method CountProducts(lab: Lab, observed: Observed, lower: string -> string) returns (t: Tally)
    ensures Counted(lab, observed, lower, lab.products.Keys, t)
  {
    hide *;
    t := Tally([], [], 0, 0, 0);
    var keys := lab.products.Keys;
    var rest := keys;
    assert keys - rest == {};
    NothingCounted(lab, observed, lower);
    while rest != {}
      invariant rest <= keys
      invariant Counted(lab, observed, lower, keys - rest, t)
      decreases rest
    {
      var key :| key in rest;
      assert keys - (rest - {key}) == (keys - rest) + {key};
      t := CountOne(lab, observed, lower, keys - rest, key, t);
      rest := rest - {key};
    }
    assert keys - rest == keys;
  }

  method CountOne(
    lab: Lab, observed: Observed, lower: string -> string, ghost done: set<Endpoint>, key: Endpoint, before: Tally)
    returns (t: Tally)
    requires key !in done && key in lab.products && Counted(lab, observed, lower, done, before)
    ensures Counted(lab, observed, lower, done + {key}, t)
  {
    hide Named, Versioned, VersionNamed, NamesProduct, NamesVersion, Lists, Misses;
    var want := lab.products[key];
    t := before;
    OneMoreNamed(lab, observed, lower, done, key);
    OneMoreVersion(lab, observed, lower, done, key);
    if NamesProduct(lab, observed, key, lower) {
      ListsOneMore(t.namedAt, Named(lab, observed, lower, done), key);
      t := t.(named := t.named + 1, namedAt := t.namedAt + [Show(key)]);
    } else {
      var reported := if key in observed.identified then observed.identified[key].product else None;
      MissesOneMore(lab, observed, t.missed, done - Named(lab, observed, lower, done), key);
      t := t.(missed := t.missed + [Missed(Show(key), want.product, reported)]);
    }
    if want.version.Some? {
      t := t.(versionsExpected := t.versionsExpected + 1);
    }
    if NamesVersion(lab, observed, key, lower) {
      t := t.(versionsNamed := t.versionsNamed + 1);
    }
  }

  lemma MissesOneMore(lab: Lab, observed: Observed, missed: seq<Missed>, es: set<Endpoint>, e: Endpoint)
    requires Misses(lab, observed, missed, es) && e !in es && e in lab.products
    ensures Misses(lab, observed, missed + [MissOf(lab, observed, e)], es + {e})
  {
    ListsOneMore(Places(missed), es, e);
    hide Lists;
    var more := missed + [MissOf(lab, observed, e)];
    assert Places(more) == Places(missed) + [Show(e)];
    forall m | m in more
      ensures exists d :: d in es + {e} && d in lab.products && m == MissOf(lab, observed, d)
    {
      if m in missed {
        var d :| d in es && d in lab.products && m == MissOf(lab, observed, d);
        assert d in es + {e};
      } else {
        assert e in es + {e};
      }
    }
  }

  lemma NothingCounted(lab: Lab, observed: Observed, lower: string -> string)
    ensures Counted(lab, observed, lower, {}, Tally([], [], 0, 0, 0))
  {
  }

  lemma AddOne(s: set<Endpoint>, t: set<Endpoint>, e: Endpoint, holds: bool)
    requires e !in s && t == if holds then s + {e} else s
    ensures |t| == |s| + if holds then 1 else 0
  {
  }

  lemma OneMoreNamed(lab: Lab, observed: Observed, lower: string -> string, es: set<Endpoint>, e: Endpoint)
    requires e !in es
    ensures var names, yes, yes' :=
        NamesProduct(lab, observed, e, lower), Named(lab, observed, lower, es), Named(lab, observed, lower, es + {e});
      && e !in yes && yes' == (if names then yes + {e} else yes)
      && (es + {e}) - yes' == if names then es - yes else (es - yes) + {e}
  {
    hide NamesProduct;
    var yes, yes' := Named(lab, observed, lower, es), Named(lab, observed, lower, es + {e});
    if NamesProduct(lab, observed, e, lower) {
      assert yes' == yes + {e};
      assert (es + {e}) - yes' == es - yes;
    } else {
      assert yes' == yes;
      assert (es + {e}) - yes' == (es - yes) + {e};
    }
  }

  lemma OneMoreVersion(lab: Lab, observed: Observed, lower: string -> string, es: set<Endpoint>, e: Endpoint)
    requires e !in es
    ensures |Versioned(lab, es + {e})| == |Versioned(lab, es)| + if HasVersion(lab, e) then 1 else 0
    ensures |VersionNamed(lab, observed, lower, es + {e})| ==
      |VersionNamed(lab, observed, lower, es)| + if NamesVersion(lab, observed, e, lower) then 1 else 0
  {
    hide HasVersion, NamesVersion;
    AddOne(Versioned(lab, es), Versioned(lab, es + {e}), e, HasVersion(lab, e));
    AddOne(VersionNamed(lab, observed, lower, es), VersionNamed(lab, observed, lower, es + {e}), e,
      NamesVersion(lab, observed, e, lower));
  }

  /** `a` is a score of `observed` against `lab`. */
  ghost predicate IsScore(lab: Lab, observed: Observed, lower: string -> string, a: Accuracy) {
    var expected, reported := Scoped(lab, lab.open), Scoped(lab, observed.open);
    && a.expectedOpen == |expected| && a.foundOpen == |expected * reported|
    && Lists(a.falseNegatives, expected - reported) && Lists(a.falsePositives, reported - expected)
    && a.productsExpected == |lab.products|
    && Counted(lab, observed, lower, lab.products.Keys,
         Tally(a.productsNamedAt, a.productsMissed, a.productsNamed, a.versionsExpected, a.versionsNamed))
  }

  method Score(lab: Lab, observed: Observed, lower: string -> string) returns (a: Accuracy)
    ensures IsScore(lab, observed, lower, a)
  {
    var expected, reported := Scoped(lab, lab.open), Scoped(lab, observed.open);
    var falseNegatives := ShowAll(expected - reported);
    var falsePositives := ShowAll(reported - expected);
    var t := CountProducts(lab, observed, lower);
    a := Accuracy(
      |expected|, |expected * reported|, falseNegatives, falsePositives,
      |lab.products|, t.named, t.namedAt, t.missed, t.versionsExpected, t.versionsNamed);
  }

  // ---- What every score satisfies ------------------------------------------------------

  lemma SplitSize(s: set<Endpoint>, t: set<Endpoint>)
    ensures |s * t| + |s - t| == |s|
  {
    assert s == s * t + (s - t);
  }

  /** Nothing is lost and nothing is counted twice. */
  lemma ScoresBalance(lab: Lab, observed: Observed, lower: string -> string, a: Accuracy)
    requires IsScore(lab, observed, lower, a)
    ensures a.foundOpen + |a.falseNegatives| == a.expectedOpen
    ensures a.foundOpen + |a.falsePositives| == |Scoped(lab, observed.open)|
    ensures a.productsNamed + |a.productsMissed| == a.productsExpected
    ensures a.versionsNamed <= a.versionsExpected <= a.productsExpected
  {
    var expected, reported := Scoped(lab, lab.open), Scoped(lab, observed.open);
    SplitSize(expected, reported);
    SplitSize(reported, expected);
    assert reported * expected == expected * reported;
    ProductsBalance(lab, observed, lower, a);
  }

  lemma ProductsBalance(lab: Lab, observed: Observed, lower: string -> string, a: Accuracy)
    requires IsScore(lab, observed, lower, a)
    ensures a.productsNamed + |a.productsMissed| == a.productsExpected
    ensures a.versionsNamed <= a.versionsExpected <= a.productsExpected
  {
    var keys := lab.products.Keys;
    var yes := Named(lab, observed, lower, keys);
    assert keys == yes + (keys - yes);
    assert |keys| == |lab.products|;
    Smaller(VersionNamed(lab, observed, lower, keys), Versioned(lab, keys));
    Smaller(Versioned(lab, keys), keys);
  }

  lemma Smaller(s: set<Endpoint>, t: set<Endpoint>)
    requires s <= t
    ensures |s| <= |t|
  {
    assert t == s + (t - s);
  }

  /** A port nobody asked about changes no part of the score. */
  lemma OutOfScopeIsIgnored(lab: Lab, observed: Observed, extra: set<Endpoint>, lower: string -> string, a: Accuracy)
    requires forall e :: e in extra ==> !InScope(lab, e)
    ensures IsScore(lab, observed, lower, a) <==> IsScore(lab, observed.(open := observed.open + extra), lower, a)
  {
    var more, keys := observed.(open := observed.open + extra), lab.products.Keys;
    assert Scoped(lab, more.open) == Scoped(lab, observed.open);
    assert Named(lab, more, lower, keys) == Named(lab, observed, lower, keys);
    assert VersionNamed(lab, more, lower, keys) == VersionNamed(lab, observed, lower, keys);
  }

  // ---- In terms of texts and addresses -------------------------------------------------

  lemma ContainsSpelled(s: string, t: string)
    ensures Contains(s, t) <==> exists k: nat :: Occurs(s, t, k)
  {
    forall k: nat | Occurs(s, t, k)
      ensures Find(s, t).Some?
    {
      FindIsFirst(s, t, k);
    }
  }

  /** Either name, in lower case, may stand somewhere in the other; neither may be empty. */
  ghost predicate SameProduct(expected: string, reported: string, lower: string -> string) {
    && lower(expected) != "" && lower(reported) != ""
    && ((exists k: nat :: Occurs(lower(expected), lower(reported), k))
        || (exists k: nat :: Occurs(lower(reported), lower(expected), k)))
  }

  /** The reported version begins with the expected one, which is not empty. */
  predicate SameVersion(expected: string, reported: string, lower: string -> string) {
    && expected != "" && |lower(expected)| <= |lower(reported)|
    && lower(reported)[..|lower(expected)|] == lower(expected)
  }

  lemma MatchesSpelled(expected: string, reported: string, lower: string -> string)
    ensures ProductMatches(expected, reported, lower) <==> SameProduct(expected, reported, lower)
    ensures VersionMatches(expected, reported, lower) <==> SameVersion(expected, reported, lower)
  {
    ContainsSpelled(lower(expected), lower(reported));
    ContainsSpelled(lower(reported), lower(expected));
    hide Contains, Occurs;
  }

  predicate Asked(lab: Lab, e: Endpoint) {
    e.ip in lab.targets && e.port in lab.ports
  }

  /** The endpoint as it is printed. */
  function Printed(e: Endpoint): string {
    e.ip + ":" + Decimal(e.port)
  }

  /** The lab knows a product here and the scanner reports the same one. */
  ghost predicate ProductSaid(lab: Lab, observed: Observed, e: Endpoint, lower: string -> string) {
    && e in lab.products && e in observed.identified && observed.identified[e].product.Some?
    && SameProduct(lab.products[e].product, observed.identified[e].product.value, lower)
  }

  predicate VersionKnown(lab: Lab, e: Endpoint) {
    e in lab.products && lab.products[e].version.Some?
  }

  ghost predicate VersionSaid(lab: Lab, observed: Observed, e: Endpoint, lower: string -> string) {
    && VersionKnown(lab, e) && e in observed.identified && observed.identified[e].version.Some?
    && SameVersion(lab.products[e].version.value, observed.identified[e].version.value, lower)
  }

  /** The endpoint was missed, and `m` says what was expected and reported there. */
  ghost predicate MissedThere(lab: Lab, observed: Observed, lower: string -> string, e: Endpoint, m: Missed) {
    && e in lab.products && !ProductSaid(lab, observed, e, lower)
    && m.at == Printed(e) && m.lab == lab.products[e].product
    && m.reported == if e in observed.identified then observed.identified[e].product else None
  }

  lemma SaidSpelled(lab: Lab, observed: Observed, lower: string -> string)
    ensures forall e :: NamesProduct(lab, observed, e, lower) <==> ProductSaid(lab, observed, e, lower)
    ensures forall e :: NamesVersion(lab, observed, e, lower) <==> VersionSaid(lab, observed, e, lower)
  {
    hide ProductMatches, SameProduct, VersionMatches, SameVersion;
    forall expected, reported
      ensures ProductMatches(expected, reported, lower) <==> SameProduct(expected, reported, lower)
      ensures VersionMatches(expected, reported, lower) <==> SameVersion(expected, reported, lower)
    {
      MatchesSpelled(expected, reported, lower);
    }
  }

  /** Ports are compared where the scan was asked to look: how many are open, how many of these
      were found, which were missed and which are not open. */
  lemma PortsSpelled(lab: Lab, observed: Observed, lower: string -> string, a: Accuracy)
    requires IsScore(lab, observed, lower, a)
    ensures a.expectedOpen == |set e | e in lab.open && Asked(lab, e)|
    ensures a.foundOpen == |set e | e in lab.open && e in observed.open && Asked(lab, e)|
    ensures forall t :: t in a.falseNegatives <==>
      exists e :: e in lab.open && e !in observed.open && Asked(lab, e) && Printed(e) == t
    ensures forall t :: t in a.falsePositives <==>
      exists e :: e in observed.open && e !in lab.open && Asked(lab, e) && Printed(e) == t
  {
    hide Counted, Distinct;
    assert Scoped(lab, lab.open) == set e | e in lab.open && Asked(lab, e);
    assert Scoped(lab, observed.open) == set e | e in observed.open && Asked(lab, e);
    assert Scoped(lab, lab.open) * Scoped(lab, observed.open) ==
      set e | e in lab.open && e in observed.open && Asked(lab, e);
    assert forall e :: Show(e) == Printed(e);
    hide Show, Printed, Scoped, Asked;
  }

  /** Every product of the lab is scored, asked about or not. */
  lemma ProductsSpelled(lab: Lab, observed: Observed, lower: string -> string, a: Accuracy)
    requires IsScore(lab, observed, lower, a)
    ensures a.productsExpected == |lab.products.Keys|
    ensures a.productsNamed == |set e | e in lab.products && ProductSaid(lab, observed, e, lower)|
    ensures forall t :: t in a.productsNamedAt <==>
      exists e :: e in lab.products && ProductSaid(lab, observed, e, lower) && Printed(e) == t
    ensures a.versionsExpected == |set e | e in lab.products && VersionKnown(lab, e)|
    ensures a.versionsNamed == |set e | e in lab.products && VersionSaid(lab, observed, e, lower)|
  {
    SaidSpelled(lab, observed, lower);
    hide ProductSaid, NamesProduct, VersionSaid, NamesVersion, Misses, Distinct;
    var keys := lab.products.Keys;
    assert Named(lab, observed, lower, keys) == set e | e in lab.products && ProductSaid(lab, observed, e, lower);
    assert Versioned(lab, keys) == set e | e in lab.products && VersionKnown(lab, e);
    assert VersionNamed(lab, observed, lower, keys) ==
      set e | e in lab.products && VersionSaid(lab, observed, e, lower);
    assert forall e :: Show(e) == Printed(e);
    hide Show, Printed;
  }

  lemma MissedSpelled(lab: Lab, observed: Observed, lower: string -> string, a: Accuracy)
    requires IsScore(lab, observed, lower, a)
    ensures forall e :: e in lab.products ==>
      (Printed(e) in Places(a.productsMissed) <==> !ProductSaid(lab, observed, e, lower))
    ensures forall m :: m in a.productsMissed ==> exists e :: MissedThere(lab, observed, lower, e, m)
  {
    SaidSpelled(lab, observed, lower);
    hide ProductSaid, NamesProduct;
    var named := Named(lab, observed, lower, lab.products.Keys);
    forall m | m in a.productsMissed
      ensures exists e :: MissedThere(lab, observed, lower, e, m)
    {
      var e :| e in lab.products.Keys - named && e in lab.products && m == MissOf(lab, observed, e);
      assert MissedThere(lab, observed, lower, e, m);
    }
    forall e | e in lab.products
      ensures Printed(e) in Places(a.productsMissed) <==> !ProductSaid(lab, observed, e, lower)
    {
      forall d | Show(d) == Show(e)
        ensures d == e
      {
        ShowIsInjective(d, e);
      }
    }
  }
}
