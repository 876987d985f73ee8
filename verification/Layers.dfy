/** `find_violations` of xtask/src/main.rs: the layer order of the workspace, and what an empty
    report says about its dependency graph. */
module Layers {
  import opened Options
  import opened TextSearch

  /** Lowest level first. */
  const LAYERS := [
    "bathy-types", "bathy-scope", "bathy-evidence", "bathy-store", "bathy-plan", "bathy-interpret",
    "bathy-probe", "bathy-engine", "bathy-packetd", "bathy-query", "bathy-mcp", "bathy"]

  const FORBIDDEN_SUBSTRINGS := ["openai", "anthropic", "llm", "langchain", "ollama", "tokenizers"]

  datatype PackageInfo = PackageInfo(name: string, dependencies: seq<string>)

  datatype Violation =
    | NotLower(package: string, dependency: string)
    | InferenceClient(package: string, dependency: string)

  /** The rank of a layer: the last position, since later insertions win. */
  function RankIn(layers: seq<string>, name: string): (r: Option<nat>)
    ensures r.Some? <==> name in layers
    ensures r.Some? ==> r.value < |layers| && layers[r.value] == name
  {
    if layers == [] then None
    else if layers[|layers| - 1] == name then Some(|layers| - 1)
    else RankIn(layers[..|layers| - 1], name)
  }

  function Rank(name: string): Option<nat> {
    RankIn(LAYERS, name)
  }

  predicate Forbidden(dependency: string, lower: string -> string) {
    exists f :: f in FORBIDDEN_SUBSTRINGS && Find(lower(dependency), f).Some?
  }

  /** `package` directly depends on `dependency`. */
  ghost predicate DependsOn(packages: seq<PackageInfo>, package: string, dependency: string) {
    exists p :: p in packages && p.name == package && dependency in p.dependencies
  }

  predicate OutOfOrder(package: string, dependency: string) {
    Rank(package).Some? && Rank(dependency).Some? && Rank(dependency).value >= Rank(package).value
  }

  predicate Bad(v: Violation, lower: string -> string) {
    if v.NotLower? then OutOfOrder(v.package, v.dependency) else Forbidden(v.dependency, lower)
  }

  /** `v` is a violation of the rule. */
  ghost predicate Violates(packages: seq<PackageInfo>, v: Violation, lower: string -> string) {
    && DependsOn(packages, v.package, v.dependency)
    && Bad(v, lower)
  }

  method FindViolations(packages: seq<PackageInfo>, lower: string -> string) returns (found: seq<Violation>)
    ensures forall v :: v in found <==> Violates(packages, v, lower)
  {
    hide OutOfOrder, Forbidden;
    found := [];
    for i := 0 to |packages|
      invariant forall v :: v in found <==> Violates(packages[..i], v, lower)
    {
      assert packages[..i + 1] == packages[..i] + [packages[i]];
      var more := PackageViolations(packages[i], lower);
      found := found + more;
    }
    assert packages[..|packages|] == packages;
  }

  method PackageViolations(package: PackageInfo, lower: string -> string) returns (found: seq<Violation>)
    ensures forall v :: v in found <==> Violates([package], v, lower)
  {
    hide OutOfOrder, Forbidden;
    found := [];
    var deps := package.dependencies;
    for i := 0 to |deps|
      invariant forall v :: v in found <==> v.package == package.name && v.dependency in deps[..i] && Bad(v, lower)
    {
      assert deps[..i + 1] == deps[..i] + [deps[i]];
      if OutOfOrder(package.name, deps[i]) {
        found := found + [NotLower(package.name, deps[i])];
      }
      if Forbidden(deps[i], lower) {
        found := found + [InferenceClient(package.name, deps[i])];
      }
    }
    assert deps[..|deps|] == deps;
  }

  // ---- The layers and the forbidden words, one by one ----------------------------------

  lemma {:induction false} RankInIs(layers: seq<string>, k: nat)
    requires k < |layers| && forall j :: k < j < |layers| ==> layers[j] != layers[k]
    ensures RankIn(layers, layers[k]) == Some(k)
  {
    if k < |layers| - 1 {
      RankInIs(layers[..|layers| - 1], k);
    }
  }

  /** The twelve layers, from the types at the bottom to the program at the top. */
  function LayerAt(k: nat): string {
    match k
    case 0 => "bathy-types"
    case 1 => "bathy-scope"
    case 2 => "bathy-evidence"
    case 3 => "bathy-store"
    case 4 => "bathy-plan"
    case 5 => "bathy-interpret"
    case 6 => "bathy-probe"
    case 7 => "bathy-engine"
    case 8 => "bathy-packetd"
    case 9 => "bathy-query"
    case 10 => "bathy-mcp"
    case _ => "bathy"
  }

  lemma LayersSpelled(k: nat)
    ensures |LAYERS| == 12 && (k < 12 ==> LAYERS[k] == LayerAt(k))
  {
  }

  lemma LayersDiffer(j: nat, k: nat)
    requires j < k < 12
    ensures LayerAt(j) != LayerAt(k)
  {
    var a, b := LayerAt(j), LayerAt(k);
    assert |a| == |b| ==> a[6] != b[6] || a[7] != b[7] || a[8] != b[8];
  }

  lemma RankSpelled(name: string, k: nat)
    ensures Rank(name) == Some(k) <==> k < 12 && name == LayerAt(k)
  {
    LayersSpelled(k);
    if k < 12 {
      forall j | k < j < 12
        ensures LAYERS[j] != LAYERS[k]
      {
        LayersSpelled(j);
        LayersDiffer(k, j);
      }
      RankInIs(LAYERS, k);
    }
    hide LayerAt, RankIn;
  }

  lemma ForbiddenSpelled(dependency: string, lower: string -> string)
    ensures Forbidden(dependency, lower) <==>
      exists k: nat :: Mentions(lower(dependency), k)
  {
    var d := lower(dependency);
    forall f, k: nat | Occurs(d, f, k)
      ensures Find(d, f).Some?
    {
      FindIsFirst(d, f, k);
    }
    hide Occurs, Find;
    var all := FORBIDDEN_SUBSTRINGS;
    assert all[0] in all && all[1] in all && all[2] in all && all[3] in all && all[4] in all && all[5] in all;
    if f :| f in all && Find(d, f).Some? {
      assert Occurs(d, f, Find(d, f).value);
      assert Mentions(d, Find(d, f).value);
    }
  }

  /** The name of an inference client stands at `k`. */
  predicate Mentions(text: string, k: nat) {
    || Occurs(text, "openai", k) || Occurs(text, "anthropic", k) || Occurs(text, "llm", k)
    || Occurs(text, "langchain", k) || Occurs(text, "ollama", k) || Occurs(text, "tokenizers", k)
  }

  // ---- Paths ---------------------------------------------------------------------------

  /** Each package of `path` is ranked and directly depends on the next. */
  ghost predicate RankedPath(packages: seq<PackageInfo>, path: seq<string>) {
    && (forall i :: 0 <= i < |path| ==> Rank(path[i]).Some?)
    && forall i :: 0 < i < |path| ==> DependsOn(packages, path[i - 1], path[i])
  }

  ghost predicate NoneOutOfOrder(packages: seq<PackageInfo>, lower: string -> string) {
    forall p, d :: !Violates(packages, NotLower(p, d), lower)
  }

  /** Without a layer violation the rank falls along every path, by at least one a step. */
  lemma {:induction false} RankFalls(
    packages: seq<PackageInfo>, lower: string -> string, path: seq<string>, i: nat, j: nat)
    requires NoneOutOfOrder(packages, lower) && RankedPath(packages, path) && i <= j < |path|
    ensures Rank(path[j]).value + (j - i) <= Rank(path[i]).value
    decreases j
  {
    hide Rank, DependsOn;
    if i < j {
      RankFalls(packages, lower, path, i, j - 1);
      assert !Violates(packages, NotLower(path[j - 1], path[j]), lower);
    }
  }

  /** So no ranked path returns to a package, and none is longer than the layer order. */
  lemma LayeredMeansAcyclic(packages: seq<PackageInfo>, lower: string -> string, path: seq<string>)
    requires NoneOutOfOrder(packages, lower) && RankedPath(packages, path)
    ensures forall i, j :: 0 <= i < j < |path| ==> path[i] != path[j]
    ensures |path| <= |LAYERS|
  {
    assert path != [] ==> Rank(path[0]).Some? && Rank(path[0]).value < |LAYERS|;
    hide Rank, NoneOutOfOrder, DependsOn;
    forall i, j | 0 <= i < j < |path|
      ensures path[i] != path[j]
    {
      RankFalls(packages, lower, path, i, j);
    }
    if path != [] {
      RankFalls(packages, lower, path, 0, |path| - 1);
    }
  }

  /** The report is empty exactly when ranks fall along every direct dependency between ranked
      packages and no dependency looks like an inference client. */
  lemma EmptyReportDecides(packages: seq<PackageInfo>, lower: string -> string)
    ensures (forall v :: !Violates(packages, v, lower)) <==>
      && (forall p, d :: DependsOn(packages, p, d) && Rank(p).Some? && Rank(d).Some? ==> Rank(d).value < Rank(p).value)
      && (forall p, d :: DependsOn(packages, p, d) ==> !Forbidden(d, lower))
  {
    hide Forbidden, Rank, DependsOn;
    forall p, d | DependsOn(packages, p, d)
      ensures OutOfOrder(p, d) <==> Violates(packages, NotLower(p, d), lower)
      ensures Forbidden(d, lower) <==> Violates(packages, InferenceClient(p, d), lower)
    {
    }
  }
}
