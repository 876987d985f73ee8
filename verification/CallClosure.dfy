/** The call closure of `packetd_privileged_window` and `PrivilegedWindow::total_lines`,
    xtask/src/gates.rs: every crate function that can run while the capability is held. */
module CallClosure {

  /** One production function: the keys it answers to and the keys its body calls. */
  datatype PacketdFn = PacketdFn(name: string, site: string, codeLines: nat, keys: seq<string>, calls: seq<string>)

  // ---- Reachability --------------------------------------------------------------------

  /** Some definition that answers to `key` calls `callee`. */
  ghost predicate Calls(defined: seq<PacketdFn>, key: string, callee: string) {
    exists f :: f in defined && key in f.keys && callee in f.calls
  }

  /** A chain of calls that starts at a seed. */
  ghost predicate Chain(defined: seq<PacketdFn>, seeds: seq<string>, path: seq<string>) {
    && path != [] && path[0] in seeds
    && forall i :: 0 < i < |path| ==> Linked(defined, path, i)
  }

  ghost predicate Linked(defined: seq<PacketdFn>, path: seq<string>, i: nat) {
    0 < i < |path| && Calls(defined, path[i - 1], path[i])
  }

  ghost predicate Reachable(defined: seq<PacketdFn>, seeds: seq<string>, key: string) {
    exists path :: Chain(defined, seeds, path) && path[|path| - 1] == key
  }

  /** Some key `f` answers to is reachable. */
  ghost predicate Runs(defined: seq<PacketdFn>, seeds: seq<string>, f: PacketdFn) {
    f in defined && exists key :: key in f.keys && Reachable(defined, seeds, key)
  }

  /** `keys` holds the seeds and everything its own members call. */
  ghost predicate Closed(defined: seq<PacketdFn>, seeds: seq<string>, keys: set<string>) {
    && (forall key :: key in seeds ==> key in keys)
    && forall key, callee :: key in keys && Calls(defined, key, callee) ==> callee in keys
  }

  lemma CalleeIsReachable(defined: seq<PacketdFn>, seeds: seq<string>, key: string, callee: string)
    requires Reachable(defined, seeds, key) && Calls(defined, key, callee)
    ensures Reachable(defined, seeds, callee)
  {
    var path :| Chain(defined, seeds, path) && path[|path| - 1] == key;
    var longer := path + [callee];
    forall i | 0 < i < |longer|
      ensures Linked(defined, longer, i)
    {
      assert i < |path| ==> Linked(defined, path, i);
    }
    assert Chain(defined, seeds, longer);
  }

  lemma {:induction false} ChainStaysIn(
    defined: seq<PacketdFn>, seeds: seq<string>, path: seq<string>, keys: set<string>)
    requires Chain(defined, seeds, path) && Closed(defined, seeds, keys)
    ensures path[|path| - 1] in keys
  {
    if |path| > 1 {
      var shorter := path[..|path| - 1];
      forall i | 0 < i < |shorter|
        ensures Linked(defined, shorter, i)
      {
        assert Linked(defined, path, i);
      }
      ChainStaysIn(defined, seeds, shorter, keys);
      assert Linked(defined, path, |path| - 1);
    }
  }

  /** The reachable keys are the least closed set. */
  lemma ReachableIsLeast(defined: seq<PacketdFn>, seeds: seq<string>, keys: set<string>)
    requires Closed(defined, seeds, keys)
    ensures forall key :: Reachable(defined, seeds, key) ==> key in keys
  {
    forall key | Reachable(defined, seeds, key)
      ensures key in keys
    {
      var path :| Chain(defined, seeds, path) && path[|path| - 1] == key;
      ChainStaysIn(defined, seeds, path, keys);
    }
  }

  /** `more` has every definition of `defined`, with at least its keys and its calls. */
  ghost predicate Extends(defined: seq<PacketdFn>, more: seq<PacketdFn>) {
    forall f :: f in defined ==> exists g :: g in more && Covers(f, g)
  }

  ghost predicate Covers(f: PacketdFn, g: PacketdFn) {
    (forall k :: k in f.keys ==> k in g.keys) && (forall c :: c in f.calls ==> c in g.calls)
  }

  /** Adding a definition, a key, a call or a seed never takes a key out of the window. */
  lemma ClosureIsMonotone(
    defined: seq<PacketdFn>, more: seq<PacketdFn>, seeds: seq<string>, seeds': seq<string>, key: string)
    requires Extends(defined, more) && (forall s :: s in seeds ==> s in seeds')
    requires Reachable(defined, seeds, key)
    ensures Reachable(more, seeds', key)
  {
    var path :| Chain(defined, seeds, path) && path[|path| - 1] == key;
    forall i | 0 < i < |path|
      ensures Linked(more, path, i)
    {
      assert Linked(defined, path, i);
      var f :| f in defined && path[i - 1] in f.keys && path[i] in f.calls;
      var g :| g in more && Covers(f, g);
    }
    assert Chain(more, seeds', path);
  }

  // ---- The worklist --------------------------------------------------------------------

  /** Every key the worklist can ever hold. */
  ghost function Universe(defined: seq<PacketdFn>, seeds: seq<string>): set<string> {
    (set s | s in seeds) + (set f, c | f in defined && c in f.calls :: c)
  }

  /** What one pass over the definitions keeps, with the first `n` of them looked at for `key`. */
  ghost predicate Settled(
    defined: seq<PacketdFn>, n: nat, key: string, seen: seq<string>, frontier: seq<string>, chosen: seq<PacketdFn>)
    requires n <= |defined|
  {
    forall i :: 0 <= i < n && key in defined[i].keys ==>
      && defined[i] in chosen
      && forall c :: c in defined[i].calls ==> c in seen || c in frontier
  }

  ghost predicate AllSettled(
    defined: seq<PacketdFn>, seen: seq<string>, frontier: seq<string>, chosen: seq<PacketdFn>)
  {
    forall key :: key in seen ==> Settled(defined, |defined|, key, seen, frontier, chosen)
  }

  ghost predicate Sound(defined: seq<PacketdFn>, seeds: seq<string>, keys: seq<string>) {
    forall key :: key in keys ==> key in Universe(defined, seeds) && Reachable(defined, seeds, key)
  }

  method Close(defined: seq<PacketdFn>, seeds: seq<string>) returns (chosen: seq<PacketdFn>)
    ensures forall f :: f in chosen <==> Runs(defined, seeds, f)
  {
    SeedsAreSound(defined, seeds);
    hide Sound, AllSettled, Settled, Runs, Universe;
    var frontier := seeds;
    var seen: seq<string> := [];
    chosen := [];
    NothingSeen(defined, seeds);
    ghost var left := Universe(defined, seeds);
    while frontier != []
      invariant Sound(defined, seeds, frontier)
      invariant forall key :: key in seeds ==> key in seen || key in frontier
      invariant AllSettled(defined, seen, frontier, chosen)
      invariant forall f :: f in chosen ==> Runs(defined, seeds, f)
      invariant forall key :: key in left <==> key in Universe(defined, seeds) && key !in seen
      decreases left, |frontier|
    {
      var key := frontier[|frontier| - 1];
      ghost var before, seenBefore := frontier, seen;
      SoundPop(defined, seeds, frontier);
      frontier := frontier[..|frontier| - 1];
      assert before == frontier + [key];
      if key in seen {
        SettledAfterPop(defined, seen, frontier, key, chosen);
        continue;
      }
      seen := seen + [key];
      left := left - {key};
      var found, pending := [], frontier;
      found, frontier := Visit(defined, seeds, key, seen, pending);
      SettledAfterVisit(defined, seenBefore, pending, key, frontier, chosen, found);
      chosen := chosen + found;
    }
    AllRunsAreChosen(defined, seeds, seen, chosen);
  }

  lemma SeedsAreSound(defined: seq<PacketdFn>, seeds: seq<string>)
    ensures Sound(defined, seeds, seeds)
  {
    forall key | key in seeds
      ensures Reachable(defined, seeds, key)
    {
      assert Chain(defined, seeds, [key]);
    }
  }

  lemma NothingSeen(defined: seq<PacketdFn>, frontier: seq<string>)
    ensures AllSettled(defined, [], frontier, [])
  {
  }

  lemma SoundPop(defined: seq<PacketdFn>, seeds: seq<string>, keys: seq<string>)
    requires keys != [] && Sound(defined, seeds, keys)
    ensures Sound(defined, seeds, keys[..|keys| - 1])
    ensures keys[|keys| - 1] in Universe(defined, seeds) && Reachable(defined, seeds, keys[|keys| - 1])
  {
  }

  lemma SettledAfterPop(
    defined: seq<PacketdFn>, seen: seq<string>, frontier: seq<string>, key: string, chosen: seq<PacketdFn>)
    requires AllSettled(defined, seen, frontier + [key], chosen) && key in seen
    ensures AllSettled(defined, seen, frontier, chosen)
  {
    forall k | k in seen
      ensures Settled(defined, |defined|, k, seen, frontier, chosen)
    {
      assert Settled(defined, |defined|, k, seen, frontier + [key], chosen);
    }
  }

  lemma SettledAfterVisit(
    defined: seq<PacketdFn>, seen: seq<string>, pending: seq<string>, key: string, frontier: seq<string>,
    chosen: seq<PacketdFn>, found: seq<PacketdFn>)
    requires AllSettled(defined, seen, pending + [key], chosen)
    requires Settled(defined, |defined|, key, seen + [key], frontier, found)
    requires forall k :: k in pending ==> k in frontier
    ensures AllSettled(defined, seen + [key], frontier, chosen + found)
  {
    forall k | k in seen + [key]
      ensures Settled(defined, |defined|, k, seen + [key], frontier, chosen + found)
    {
      if k in seen {
        assert Settled(defined, |defined|, k, seen, pending + [key], chosen);
      }
    }
  }

  lemma AllRunsAreChosen(defined: seq<PacketdFn>, seeds: seq<string>, seen: seq<string>, chosen: seq<PacketdFn>)
    requires forall key :: key in seeds ==> key in seen
    requires AllSettled(defined, seen, [], chosen)
    ensures forall f :: Runs(defined, seeds, f) ==> f in chosen
  {
    SeenIsClosed(defined, seeds, seen, chosen);
    ReachableIsLeast(defined, seeds, set k | k in seen);
    forall f | Runs(defined, seeds, f)
      ensures f in chosen
    {
      var key :| key in f.keys && Reachable(defined, seeds, key);
      assert Settled(defined, |defined|, key, seen, [], chosen);
      var i :| 0 <= i < |defined| && defined[i] == f;
    }
  }

  lemma SeenIsClosed(defined: seq<PacketdFn>, seeds: seq<string>, seen: seq<string>, chosen: seq<PacketdFn>)
    requires forall key :: key in seeds ==> key in seen
    requires AllSettled(defined, seen, [], chosen)
    ensures Closed(defined, seeds, set k | k in seen)
  {
    forall key, callee | key in seen && Calls(defined, key, callee)
      ensures callee in seen
    {
      var f :| f in defined && key in f.keys && callee in f.calls;
      var i :| 0 <= i < |defined| && defined[i] == f;
      assert Settled(defined, |defined|, key, seen, [], chosen);
    }
  }

  /** The definitions that answer to `key`; their unseen callees join the frontier. */
  method Visit(defined: seq<PacketdFn>, seeds: seq<string>, key: string, seen: seq<string>, pending: seq<string>)
    returns (found: seq<PacketdFn>, frontier: seq<string>)
    requires Reachable(defined, seeds, key) && Sound(defined, seeds, pending)
    ensures forall k :: k in pending ==> k in frontier
    ensures Sound(defined, seeds, frontier)
    ensures Settled(defined, |defined|, key, seen, frontier, found)
    ensures forall f :: f in found ==> Runs(defined, seeds, f)
  {
    found, frontier := [], pending;
    for i := 0 to |defined|
      invariant forall k :: k in pending ==> k in frontier
      invariant Sound(defined, seeds, frontier)
      invariant Settled(defined, i, key, seen, frontier, found)
      invariant forall f :: f in found ==> Runs(defined, seeds, f)
    {
      var f := defined[i];
      if key in f.keys {
        found := found + [f];
        forall c | c in f.calls
          ensures c in Universe(defined, seeds) && Reachable(defined, seeds, c)
        {
          CalleeIsReachable(defined, seeds, key, c);
        }
        frontier := PushUnseen(f.calls, seen, frontier);
      }
    }
  }

  method PushUnseen(calls: seq<string>, seen: seq<string>, pending: seq<string>) returns (frontier: seq<string>)
    ensures forall k :: k in frontier <==> k in pending || (k in calls && k !in seen)
  {
    frontier := pending;
    for i := 0 to |calls|
      invariant forall k :: k in frontier <==> k in pending || (k in calls[..i] && k !in seen)
    {
      assert calls[..i + 1] == calls[..i] + [calls[i]];
      if calls[i] !in seen {
        frontier := frontier + [calls[i]];
      }
    }
    assert calls[..|calls|] == calls;
  }
}
