/** The schema gate of xtask/src/main.rs: the published schemas and their mirrored fuzz seeds,
    written or checked. A directory is a mutable map from file names to texts. Rendering,
    parsing and the search for maintainer prose (xtask/src/prose.rs) are parameters, and no read
    or write of an existing file fails. */
module SchemaTree {
  import opened Options

  datatype Tools<!V> = Tools(pretty: V -> string, prose: (string, V) -> seq<string>, parse: string -> Option<V>) {
    /** The text of a committed schema. */
    function Rendered(schema: V): string {
      pretty(schema) + "\n"
    }
  }

  type Files = map<string, string>

  const EXTENSION := ".json"
  const SEED_PREFIX := "schema-"

  function FileOf(prefix: string, name: string): string {
    prefix + name + EXTENSION
  }

  lemma FileOfIsInjective(prefix: string, m: string, n: string)
    requires FileOf(prefix, m) == FileOf(prefix, n)
    ensures m == n
  {
    var f := FileOf(prefix, m);
    assert |f| == |prefix| + |m| + |EXTENSION| == |prefix| + |n| + |EXTENSION|;
    assert m == f[|prefix|..|prefix| + |m|] && n == f[|prefix|..|prefix| + |n|];
  }

  predicate IsJson(file: string) {
    |file| > |EXTENSION| && file[|file| - |EXTENSION|..] == EXTENSION
  }

  predicate IsSeed(file: string) {
    SEED_PREFIX <= file
  }

  /** `f` is the file of some schema. */
  ghost predicate FileOfSome(f: string, prefix: string, names: set<string>) {
    exists n :: n in names && FileOf(prefix, n) == f
  }

  /** `after` is `before` with the file of every schema in `names` rendered, and nothing else changed. */
  ghost predicate Wrote<V>(
    before: Files, after: Files, prefix: string, names: set<string>, schemas: map<string, V>, tools: Tools<V>)
    requires names <= schemas.Keys
  {
    && (forall n :: n in names ==> Holds(after, prefix, n, schemas, tools))
    && (forall f :: !FileOfSome(f, prefix, names) ==> SameAt(before, after, f))
  }

  predicate SameAt(before: Files, after: Files, f: string) {
    (f in before <==> f in after) && (f in before ==> before[f] == after[f])
  }

  /** The file of schema `n` is there and is what rendering it gives. */
  predicate Holds<V>(files: Files, prefix: string, n: string, schemas: map<string, V>, tools: Tools<V>)
    requires n in schemas
  {
    FileOf(prefix, n) in files && files[FileOf(prefix, n)] == tools.Rendered(schemas[n])
  }

  class Directory {
    var present: bool
    var files: Files

    predicate Valid()
      reads this
    {
      !present ==> files == map[]
    }

    constructor (files: Files)
      ensures Valid() && this.files == files && present
    {
      present, this.files := true, files;
    }

    /** Writing a file creates its directory. */
    method Write(file: string, text: string)
      modifies this
      ensures Valid() && present && files == old(files)[file := text]
    {
      present := true;
      files := files[file := text];
    }
  }

  lemma WroteOne<V>(
    before: Files, mid: Files, prefix: string, names: set<string>, n: string, schemas: map<string, V>, tools: Tools<V>)
    requires names <= schemas.Keys && n in schemas && Wrote(before, mid, prefix, names, schemas, tools)
    ensures Wrote(before, mid[FileOf(prefix, n) := tools.Rendered(schemas[n])], prefix, names + {n}, schemas, tools)
  {
    var after := mid[FileOf(prefix, n) := tools.Rendered(schemas[n])];
    forall m | m in names + {n}
      ensures Holds(after, prefix, m, schemas, tools)
    {
      if FileOf(prefix, m) == FileOf(prefix, n) {
        FileOfIsInjective(prefix, m, n);
      }
    }
    forall f | !FileOfSome(f, prefix, names + {n})
      ensures SameAt(before, after, f)
    {
      assert n in names + {n};
      assert !FileOfSome(f, prefix, names);
    }
  }

  /** Write mode of both loops. */
  method WriteAll<V>(dir: Directory, prefix: string, schemas: map<string, V>, tools: Tools<V>)
    requires dir.Valid()
    modifies dir
    ensures dir.Valid() && dir.present == (old(dir.present) || schemas != map[])
    ensures Wrote(old(dir.files), dir.files, prefix, schemas.Keys, schemas, tools)
  {
    ghost var before := dir.files;
    var rest := schemas.Keys;
    while rest != {}
      invariant rest <= schemas.Keys && dir.Valid()
      invariant dir.present == (old(dir.present) || rest != schemas.Keys)
      invariant Wrote(before, dir.files, prefix, schemas.Keys - rest, schemas, tools)
      decreases rest
    {
      var n :| n in rest;
      WroteOne(before, dir.files, prefix, schemas.Keys - rest, n, schemas, tools);
      assert schemas.Keys - (rest - {n}) == (schemas.Keys - rest) + {n};
      dir.Write(FileOf(prefix, n), tools.Rendered(schemas[n]));
      rest := rest - {n};
    }
    assert schemas.Keys - rest == schemas.Keys;
  }

  /** Check mode of both loops: the schemas whose file is missing or differs. */
  method Differing<V>(dir: Directory, prefix: string, schemas: map<string, V>, tools: Tools<V>)
    returns (stale: set<string>)
    ensures stale <= schemas.Keys
    ensures forall n :: n in schemas ==> (n in stale <==> !Holds(dir.files, prefix, n, schemas, tools))
  {
    stale := {};
    var rest := schemas.Keys;
    while rest != {}
      invariant rest <= schemas.Keys && stale <= schemas.Keys
      invariant forall n :: n in schemas.Keys - rest ==> (n in stale <==> !Holds(dir.files, prefix, n, schemas, tools))
      invariant stale !! rest
      decreases rest
    {
      var n :| n in rest;
      if !Holds(dir.files, prefix, n, schemas, tools) {
        stale := stale + {n};
      }
      rest := rest - {n};
    }
  }

  // ---- The published directory ---------------------------------------------------------

  predicate Leaks<V>(schemas: map<string, V>, tools: Tools<V>) {
    exists n :: n in schemas && tools.prose(FileOf("", n), schemas[n]) != []
  }

  /** The directory's own check: there is a schema, every schema parses, and none of them leaks. */
  predicate ProseClean<V>(files: Files, tools: Tools<V>) {
    && (exists f :: f in files && IsJson(f))
    && forall f :: f in files && IsJson(f) ==>
      tools.parse(files[f]).Some? && tools.prose(f, tools.parse(files[f]).value) == []
  }

  predicate Current<V>(files: Files, prefix: string, schemas: map<string, V>, tools: Tools<V>) {
    forall n :: n in schemas ==> Holds(files, prefix, n, schemas, tools)
  }

  method EmitSchemasInto<V>(schemas: map<string, V>, dir: Directory, write: bool, tools: Tools<V>) returns (ok: bool)
    requires dir.Valid()
    modifies dir
    ensures dir.Valid()
    ensures !write || Leaks(schemas, tools) ==> dir.files == old(dir.files) && dir.present == old(dir.present)
    ensures write && !Leaks(schemas, tools) ==> Wrote(old(dir.files), dir.files, "", schemas.Keys, schemas, tools)
    ensures ok <==> !Leaks(schemas, tools) && Current(dir.files, "", schemas, tools) && ProseClean(dir.files, tools)
  {
    if Leaks(schemas, tools) {
      return false;
    }
    var stale := {};
    if write {
      WriteAll(dir, "", schemas, tools);
    } else {
      stale := Differing(dir, "", schemas, tools);
    }
    return stale == {} && ProseClean(dir.files, tools);
  }

  // ---- The mirrored seeds --------------------------------------------------------------

  /** The prefixed files of the directory are precisely the rendered schemas. */
  ghost predicate MirrorsExactly<V>(files: Files, schemas: map<string, V>, tools: Tools<V>) {
    && Current(files, SEED_PREFIX, schemas, tools)
    && forall f :: f in files && IsSeed(f) ==> FileOfSome(f, SEED_PREFIX, schemas.Keys)
  }

  method MirrorSchemaSeeds<V>(schemas: map<string, V>, seeds: Directory, write: bool, tools: Tools<V>)
    returns (ok: bool)
    requires seeds.Valid()
    modifies seeds
    ensures seeds.Valid()
    ensures !write ==> seeds.files == old(seeds.files) && seeds.present == old(seeds.present)
    ensures write ==> Wrote(old(seeds.files), seeds.files, SEED_PREFIX, schemas.Keys, schemas, tools)
    ensures ok <==> seeds.present && MirrorsExactly(seeds.files, schemas, tools)
  {
    var stale := {};
    if write {
      WriteAll(seeds, SEED_PREFIX, schemas, tools);
    } else {
      stale := Differing(seeds, SEED_PREFIX, schemas, tools);
    }
    if !seeds.present {
      return false;
    }
    var expected := set n | n in schemas :: FileOf(SEED_PREFIX, n);
    var orphan := exists f :: f in seeds.files && IsSeed(f) && f !in expected;
    return stale == {} && !orphan;
  }

  // ---- The merged schema set -----------------------------------------------------------

  /** Two different crates publish no file of the same name. */
  ghost predicate Apart<V>(sets: seq<map<string, V>>) {
    forall i, j :: 0 <= i < j < |sets| ==> sets[i].Keys !! sets[j].Keys
  }

  /** `merged` has every schema of every crate, and no other. */
  ghost predicate Merges<V>(sets: seq<map<string, V>>, merged: map<string, V>) {
    && (forall i, n :: 0 <= i < |sets| && n in sets[i] ==> n in merged && merged[n] == sets[i][n])
    && forall n :: n in merged ==> exists i :: 0 <= i < |sets| && n in sets[i]
  }

  /** A name that two crates claim is refused; otherwise nothing is lost or overwritten. */
  method UnionSchemas<V>(sets: seq<map<string, V>>) returns (merged: Option<map<string, V>>)
    ensures merged.Some? <==> Apart(sets)
    ensures merged.Some? ==> Merges(sets, merged.value)
  {
    var all: map<string, V> := map[];
    for i := 0 to |sets|
      invariant Apart(sets[..i]) && Merges(sets[..i], all)
    {
      var rest := sets[i].Keys;
      ghost var before := all;
      while rest != {}
        invariant rest <= sets[i].Keys
        invariant all == before + (map n | n in sets[i].Keys - rest :: sets[i][n])
        invariant before.Keys !! (sets[i].Keys - rest)
        decreases rest
      {
        var n :| n in rest;
        if n in all {
          Collides(sets, i, before, n);
          return None;
        }
        all := all[n := sets[i][n]];
        rest := rest - {n};
      }
      MergeOne(sets, i, before, all);
    }
    assert sets[..|sets|] == sets;
    return Some(all);
  }

  lemma Collides<V>(sets: seq<map<string, V>>, i: nat, before: map<string, V>, n: string)
    requires i < |sets| && Merges(sets[..i], before) && n in before && n in sets[i]
    ensures !Apart(sets)
  {
    var j :| 0 <= j < i && n in sets[..i][j];
    assert n in sets[j].Keys * sets[i].Keys;
  }

  lemma MergeOne<V>(sets: seq<map<string, V>>, i: nat, before: map<string, V>, all: map<string, V>)
    requires i < |sets| && Apart(sets[..i]) && Merges(sets[..i], before)
    requires before.Keys !! sets[i].Keys && all == before + sets[i]
    ensures Apart(sets[..i + 1]) && Merges(sets[..i + 1], all)
  {
    MergeKeepsApart(sets, i, before);
    hide Apart;
    var some, more := sets[..i], sets[..i + 1];
    assert forall j :: 0 <= j < i ==> some[j] == more[j];
    assert more[i] == sets[i];
    forall n | n in all
      ensures exists j :: 0 <= j < |more| && n in more[j]
    {
      if n !in sets[i] {
        var j :| 0 <= j < i && n in some[j];
        assert n in more[j];
      } else {
        assert n in more[i];
      }
    }
  }

  /** A merged crate's names are all among the merged ones. */
  lemma MergeCovers<V>(some: seq<map<string, V>>, before: map<string, V>, j: nat)
    requires j < |some| && Merges(some, before)
    ensures some[j].Keys <= before.Keys
  {
    assert forall n :: n in some[j] ==> n in before;
  }

  lemma MergeKeepsApart<V>(sets: seq<map<string, V>>, i: nat, before: map<string, V>)
    requires i < |sets| && Apart(sets[..i]) && Merges(sets[..i], before) && before.Keys !! sets[i].Keys
    ensures Apart(sets[..i + 1])
  {
    hide Merges;
    var some := sets[..i];
    forall j, k | 0 <= j < k <= i
      ensures sets[j].Keys !! sets[k].Keys
    {
      assert some[j] == sets[j];
      if k < i {
        assert some[k] == sets[k];
      } else {
        MergeCovers(some, before, j);
      }
    }
    assert forall j :: 0 <= j <= i ==> sets[..i + 1][j] == sets[j];
  }

  // ---- Both --------------------------------------------------------------------------

  /** The whole gate: both halves always run, whatever the first one says. */
  method EmitSchemas<V>(schemas: map<string, V>, dir: Directory, seeds: Directory, write: bool, tools: Tools<V>)
    returns (ok: bool)
    requires dir != seeds && dir.Valid() && seeds.Valid()
    modifies dir, seeds
    ensures dir.Valid() && seeds.Valid()
    ensures !write ==> dir.files == old(dir.files) && dir.present == old(dir.present)
    ensures !write ==> seeds.files == old(seeds.files) && seeds.present == old(seeds.present)
    ensures Leaks(schemas, tools) ==> dir.files == old(dir.files) && !ok
    ensures write ==> Wrote(old(seeds.files), seeds.files, SEED_PREFIX, schemas.Keys, schemas, tools)
    ensures ok <==>
      && !Leaks(schemas, tools) && Current(dir.files, "", schemas, tools) && ProseClean(dir.files, tools)
      && seeds.present && MirrorsExactly(seeds.files, schemas, tools)
  {
    var committed := EmitSchemasInto(schemas, dir, write, tools);
    var mirrored := MirrorSchemaSeeds(schemas, seeds, write, tools);
    return committed && mirrored;
  }

  /** Regenerating and then checking: a write that succeeds is followed by a check that does. */
  method WriteThenCheck<V>(schemas: map<string, V>, dir: Directory, seeds: Directory, tools: Tools<V>)
    returns (wrote: bool, checked: bool)
    requires dir != seeds && dir.Valid() && seeds.Valid()
    modifies dir, seeds
    ensures wrote <==> checked
  {
    wrote := EmitSchemas(schemas, dir, seeds, true, tools);
    checked := EmitSchemas(schemas, dir, seeds, false, tools);
  }

  // ---- In terms of file names and texts ------------------------------------------------

  lemma FileNamesSpelled(file: string)
    ensures IsJson(file) <==> exists stem :: stem != "" && file == stem + ".json"
    ensures IsSeed(file) <==> exists rest :: file == "schema-" + rest
  {
    assert |EXTENSION| == 5;
    if IsJson(file) {
      assert file == file[..|file| - 5] + ".json" && file[..|file| - 5] != "";
    }
    if IsSeed(file) {
      assert file == "schema-" + file[|SEED_PREFIX|..];
    }
  }

  /** What makes the published half succeed: no schema holds maintainer prose, every file is the
      pretty form and a newline, and every JSON document of the directory parses and is clean. */
  lemma PublishedSpelled<V>(files: Files, schemas: map<string, V>, tools: Tools<V>)
    ensures Leaks(schemas, tools) <==> exists n :: n in schemas && tools.prose(n + ".json", schemas[n]) != []
    ensures Current(files, "", schemas, tools) <==>
      forall n :: n in schemas ==> n + ".json" in files && files[n + ".json"] == tools.pretty(schemas[n]) + "\n"
    ensures ProseClean(files, tools) <==>
      && (exists stem :: stem != "" && stem + ".json" in files)
      && forall stem :: stem != "" && stem + ".json" in files ==>
        var text := files[stem + ".json"];
        tools.parse(text).Some? && tools.prose(stem + ".json", tools.parse(text).value) == []
  {
    assert forall n :: FileOf("", n) == n + ".json";
    forall f
      ensures IsJson(f) <==> exists stem :: stem != "" && f == stem + ".json"
    {
      FileNamesSpelled(f);
    }
    hide IsJson;
  }

  /** What makes the mirror exact: every schema has its seed, and every file whose name begins
      like a seed is one. */
  lemma MirrorSpelled<V>(files: Files, schemas: map<string, V>, tools: Tools<V>)
    ensures MirrorsExactly(files, schemas, tools) <==>
      && (forall n :: n in schemas ==>
          var seed := "schema-" + n + ".json";
          seed in files && files[seed] == tools.pretty(schemas[n]) + "\n")
      && forall rest :: "schema-" + rest in files ==>
        exists n :: n in schemas && "schema-" + rest == "schema-" + n + ".json"
  {
    forall f
      ensures IsSeed(f) <==> exists rest :: f == "schema-" + rest
    {
      FileNamesSpelled(f);
    }
    hide IsSeed;
  }

  /** What writing leaves: the pretty form of every schema, and every other file as it was. */
  lemma WroteSpelled<V>(before: Files, after: Files, prefix: string, schemas: map<string, V>, tools: Tools<V>)
    ensures Wrote(before, after, prefix, schemas.Keys, schemas, tools) <==>
      && (forall n :: n in schemas ==>
          var file := prefix + n + ".json";
          file in after && after[file] == tools.pretty(schemas[n]) + "\n")
      && forall f :: f !in (set n | n in schemas :: prefix + n + ".json") ==>
        (f in before <==> f in after) && (f in before ==> before[f] == after[f])
  {
    var written := set n | n in schemas :: prefix + n + ".json";
    assert forall n :: FileOf(prefix, n) == prefix + n + ".json";
    forall f
      ensures FileOfSome(f, prefix, schemas.Keys) <==> f in written
    {
    }
    hide FileOfSome, FileOf;
    assert (forall n :: n in schemas.Keys ==> Holds(after, prefix, n, schemas, tools)) <==>
      forall n :: n in schemas ==>
        var file := prefix + n + ".json";
        file in after && after[file] == tools.pretty(schemas[n]) + "\n";
    assert (forall f :: !FileOfSome(f, prefix, schemas.Keys) ==> SameAt(before, after, f)) <==>
      forall f :: f !in written ==> (f in before <==> f in after) && (f in before ==> before[f] == after[f]);
  }
}
