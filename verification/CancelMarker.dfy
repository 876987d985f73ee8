/** The cross-process cancel protocol of crates/bathy-engine/src/cancel.rs. Any number of
    processes share one directory of marker files; their operations interleave freely, and each
    turn of a watcher's polling loop is one step. */
module CancelMarker {

  type ScanId = string
  type TokenId = nat
  type WatcherId = nat

  datatype Event =
    | Request(scan: ScanId)
    | Clear(scan: ScanId)
    | Watch(watcher: WatcherId, token: TokenId, scan: ScanId)
    | Poll(watcher: WatcherId)
    | Abort(watcher: WatcherId)

  datatype Watched = Watched(token: TokenId, scan: ScanId)

  /** The marker files, the watchers still polling, and the tokens already cancelled. */
  datatype State = State(markers: set<ScanId>, watching: map<WatcherId, Watched>, cancelled: set<TokenId>)

  function Next(s: State, e: Event): State {
    match e
    case Request(scan) => s.(markers := s.markers + {scan})
    case Clear(scan) => s.(markers := s.markers - {scan})
    case Watch(watcher, token, scan) => s.(watching := s.watching[watcher := Watched(token, scan)])
    case Poll(watcher) =>
      if watcher in s.watching && s.watching[watcher].scan in s.markers then
        s.(cancelled := s.cancelled + {s.watching[watcher].token}, watching := s.watching - {watcher})
      else s
    case Abort(watcher) => s.(watching := s.watching - {watcher})
  }

  /** The state after a whole run, the latest event last. */
  function After(init: State, run: seq<Event>): State {
    if run == [] then init else Next(After(init, run[..|run| - 1]), run[|run| - 1])
  }

  // ---- The operations ------------------------------------------------------------------

  /** The shared directory and the tasks that poll it. */
  class Host {
    var markers: set<ScanId>
    var watching: map<WatcherId, Watched>
    var cancelled: set<TokenId>

    function Now(): State
      reads this
    {
      State(markers, watching, cancelled)
    }

    constructor (standing: set<ScanId>)
      ensures Now() == State(standing, map[], {})
    {
      markers, watching, cancelled := standing, map[], {};
    }

    method RequestScan(scan: ScanId)
      modifies this
      ensures Now() == Next(old(Now()), Request(scan))
    {
      markers := markers + {scan};
    }

    method ClearScan(scan: ScanId)
      modifies this
      ensures Now() == Next(old(Now()), Clear(scan))
    {
      markers := markers - {scan};
    }

    method Requested(scan: ScanId) returns (standing: bool)
      ensures standing <==> scan in markers
    {
      return scan in markers;
    }

    method SpawnWatcher(scan: ScanId, token: TokenId, watcher: WatcherId)
      modifies this
      ensures Now() == Next(old(Now()), Watch(watcher, token, scan))
    {
      watching := watching[watcher := Watched(token, scan)];
    }

    /** One turn of the watcher's loop: it cancels and returns, or sleeps. */
    method PollOnce(watcher: WatcherId)
      modifies this
      ensures Now() == Next(old(Now()), Poll(watcher))
    {
      if watcher in watching {
        var standing := Requested(watching[watcher].scan);
        if standing {
          cancelled := cancelled + {watching[watcher].token};
          watching := watching - {watcher};
        }
      }
    }

    method AbortWatcher(watcher: WatcherId)
      modifies this
      ensures Now() == Next(old(Now()), Abort(watcher))
    {
      watching := watching - {watcher};
    }

    /** Any interleaving, carried out step by step. */
    method Carry(run: seq<Event>)
      modifies this
      ensures Now() == After(old(Now()), run)
    {
      ghost var init := Now();
      for i := 0 to |run|
        invariant Now() == After(init, run[..i])
      {
        assert run[..i + 1][..i] == run[..i];
        match run[i]
        case Request(scan) => RequestScan(scan);
        case Clear(scan) => ClearScan(scan);
        case Watch(watcher, token, scan) => SpawnWatcher(scan, token, watcher);
        case Poll(watcher) => PollOnce(watcher);
        case Abort(watcher) => AbortWatcher(watcher);
      }
      assert run[..|run|] == run;
    }
  }

  // ---- What a run shows ----------------------------------------------------------------

  /** Nothing clears the scan's marker from position `i` up to `k`. */
  ghost predicate NoClear(run: seq<Event>, scan: ScanId, i: nat, k: nat) {
    forall j :: i <= j < k && j < |run| ==> run[j] != Clear(scan)
  }

  /** A request for this scan stands when event `k` happens. */
  ghost predicate Standing(init: State, run: seq<Event>, scan: ScanId, k: nat) {
    || (scan in init.markers && NoClear(run, scan, 0, k))
    || exists r :: 0 <= r < k && r < |run| && run[r] == Request(scan) && NoClear(run, scan, r, k)
  }

  /** Nothing starts or stops the watcher from position `i` up to `k`. */
  ghost predicate Undisturbed(run: seq<Event>, watcher: WatcherId, i: nat, k: nat) {
    forall j :: i <= j < k && j < |run| ==> run[j] != Abort(watcher) && !(run[j].Watch? && run[j].watcher == watcher)
  }

  /** The watcher started at `w` for this token looks at `k` and finds a standing request for
      its scan. */
  ghost predicate Found(init: State, run: seq<Event>, token: TokenId, w: nat, k: nat) {
    && w < k < |run| && run[w].Watch? && run[w].token == token && run[k] == Poll(run[w].watcher)
    && Undisturbed(run, run[w].watcher, w + 1, k)
    && Standing(init, run, run[w].scan, k)
  }

  lemma {:induction false} MarkersShowStanding(init: State, run: seq<Event>, scan: ScanId)
    ensures scan in After(init, run).markers <==> Standing(init, run, scan, |run|)
  {
    if run != [] {
      var n := |run| - 1;
      var before, last := run[..n], run[n];
      MarkersShowStanding(init, before, scan);
      StandingStep(init, before, last, scan);
      assert before + [last] == run;
    }
  }

  lemma StandingStep(init: State, run: seq<Event>, e: Event, scan: ScanId)
    ensures Standing(init, run + [e], scan, |run| + 1) <==>
      e == Request(scan) || (e != Clear(scan) && Standing(init, run, scan, |run|))
  {
    var more := run + [e];
    if e == Request(scan) {
      assert more[|run|] == Request(scan) && NoClear(more, scan, |run|, |run| + 1);
    } else if e != Clear(scan) {
      assert forall r :: 0 <= r < |run| ==> more[r] == run[r];
      assert more[|run|] == e;
      assert forall i: nat :: NoClear(more, scan, i, |run| + 1) <==> NoClear(run, scan, i, |run|);
    } else {
      assert more[|run|] == Clear(scan);
    }
  }

  /** The watcher was started at `w` and has not been restarted or aborted since. */
  ghost predicate Started(run: seq<Event>, watcher: WatcherId, w: nat) {
    w < |run| && run[w].Watch? && run[w].watcher == watcher && Undisturbed(run, watcher, w + 1, |run|)
  }

  function StartOf(e: Event): Watched
    requires e.Watch?
  {
    Watched(e.token, e.scan)
  }

  /** A watcher that is polling was started with the token and the scan it has; one that was
      started is still polling with them unless its token has been cancelled. */
  lemma {:induction false} WatchingShowsStart(init: State, run: seq<Event>, watcher: WatcherId)
    requires init.watching == map[]
    ensures var s := After(init, run);
      && (watcher in s.watching ==>
        exists w: nat :: Started(run, watcher, w) && StartOf(run[w]) == s.watching[watcher])
      && (forall w: nat :: Started(run, watcher, w) ==>
        run[w].token in s.cancelled || (watcher in s.watching && s.watching[watcher] == StartOf(run[w])))
  {
    if run != [] {
      var n := |run| - 1;
      var before, last := run[..n], run[n];
      WatchingShowsStart(init, before, watcher);
      assert before + [last] == run;
      var s := After(init, before);
      forall w: nat | w < n
        ensures Started(run, watcher, w) <==>
          Started(before, watcher, w) && last != Abort(watcher) && !(last.Watch? && last.watcher == watcher)
      {
        StartedStep(before, last, watcher, w);
      }
      if last.Watch? && last.watcher == watcher {
        assert Started(run, watcher, n);
      } else if watcher in After(init, run).watching {
        var w: nat :| Started(before, watcher, w) && StartOf(before[w]) == s.watching[watcher];
        assert Started(run, watcher, w);
      }
    }
  }

  lemma StartedStep(run: seq<Event>, e: Event, watcher: WatcherId, w: nat)
    requires w < |run|
    ensures Started(run + [e], watcher, w) <==>
      Started(run, watcher, w) && e != Abort(watcher) && !(e.Watch? && e.watcher == watcher)
  {
    var more := run + [e];
    assert more[|run|] == e;
    assert forall j :: 0 <= j < |run| ==> more[j] == run[j];
  }

  /** `e` is a look of the watcher that was started at `w` for the token. */
  ghost predicate Looks(run: seq<Event>, e: Event, token: TokenId, w: nat) {
    w < |run| && run[w].Watch? && run[w].token == token && e == Poll(run[w].watcher) && Started(run, run[w].watcher, w)
  }

  lemma FoundStep(init: State, run: seq<Event>, e: Event, token: TokenId, w: nat, k: nat)
    ensures k < |run| ==> (Found(init, run + [e], token, w, k) <==> Found(init, run, token, w, k))
    ensures k == |run| ==> (Found(init, run + [e], token, w, k) <==>
      Looks(run, e, token, w) && Standing(init, run, run[w].scan, |run|))
  {
    var more := run + [e];
    assert forall j :: 0 <= j < |run| ==> more[j] == run[j];
    if w < |run| && more[w].Watch? && k <= |run| {
      StandingLocal(init, run, e, more[w].scan, k);
    }
  }

  lemma StandingLocal(init: State, run: seq<Event>, e: Event, scan: ScanId, k: nat)
    requires k <= |run|
    ensures Standing(init, run + [e], scan, k) <==> Standing(init, run, scan, k)
  {
    var more := run + [e];
    assert forall j :: 0 <= j < |run| ==> more[j] == run[j];
    assert forall i: nat :: NoClear(more, scan, i, k) <==> NoClear(run, scan, i, k);
  }

  /** A token is cancelled exactly when some look of its watcher found a standing request. */
  lemma {:induction false} CancelledExactlyWhenFound(init: State, run: seq<Event>, token: TokenId)
    requires init.watching == map[] && init.cancelled == {}
    ensures token in After(init, run).cancelled <==> exists w: nat, k: nat :: Found(init, run, token, w, k)
  {
    if run != [] {
      var n := |run| - 1;
      var before, last := run[..n], run[n];
      var s := After(init, before);
      CancelledExactlyWhenFound(init, before, token);
      assert before + [last] == run;
      forall w: nat, k: nat
        ensures k < n ==> (Found(init, run, token, w, k) <==> Found(init, before, token, w, k))
        ensures k == n ==> (Found(init, run, token, w, k) <==>
          Looks(before, last, token, w) && Standing(init, before, before[w].scan, n))
      {
        FoundStep(init, before, last, token, w, k);
      }
      if last.Poll? {
        CancelledByLook(init, before, last.watcher, token);
        if token in After(init, run).cancelled && token !in s.cancelled {
          var w: nat :| Looks(before, last, token, w) && Standing(init, before, before[w].scan, n);
          assert Found(init, run, token, w, n);
        }
      }
    }
  }

  /** One look cancels the token exactly when it finds a standing request. */
  lemma CancelledByLook(init: State, run: seq<Event>, watcher: WatcherId, token: TokenId)
    requires init.watching == map[]
    ensures var s := After(init, run);
      token in Next(s, Poll(watcher)).cancelled <==>
        || token in s.cancelled
        || exists w: nat :: Looks(run, Poll(watcher), token, w) && Standing(init, run, run[w].scan, |run|)
  {
    var s := After(init, run);
    WatchingShowsStart(init, run, watcher);
    forall scan
      ensures scan in s.markers <==> Standing(init, run, scan, |run|)
    {
      MarkersShowStanding(init, run, scan);
    }
    hide After, Standing, Undisturbed;
    if watcher in s.watching && s.watching[watcher] == Watched(token, s.watching[watcher].scan) {
      var w: nat :| Started(run, watcher, w) && StartOf(run[w]) == s.watching[watcher];
      assert Looks(run, Poll(watcher), token, w);
    }
  }

  /** A cancelled token was asked for after its start-time clear: a marker from before the start
      cancels nothing, and neither does a request for another scan. */
  lemma StaleRequestsCancelNothing(
    init: State, run: seq<Event>, token: TokenId, clearedAt: nat, w: nat, watcher: WatcherId, scan: ScanId)
    requires init.watching == map[] && init.cancelled == {}
    requires clearedAt < w < |run| && run[clearedAt] == Clear(scan) && run[w] == Watch(watcher, token, scan)
    requires forall j :: 0 <= j < |run| && run[j].Watch? && run[j].token == token ==> j == w
    requires token in After(init, run).cancelled
    ensures exists r: nat, k: nat :: clearedAt < r && w < k && AskedAndSeen(run, scan, watcher, r, k)
  {
    CancelledExactlyWhenFound(init, run, token);
    var w': nat, k: nat :| Found(init, run, token, w', k);
    assert w' == w;
    assert !NoClear(run, scan, 0, k);
    var r: nat :| r < k && run[r] == Request(scan) && NoClear(run, scan, r, k);
    assert clearedAt < r;
    assert AskedAndSeen(run, scan, watcher, r, k);
  }

  /** A request at `r` still stands when the watcher looks at `k`. */
  ghost predicate AskedAndSeen(run: seq<Event>, scan: ScanId, watcher: WatcherId, r: nat, k: nat) {
    r < k < |run| && run[r] == Request(scan) && run[k] == Poll(watcher) && NoClear(run, scan, r, k)
  }

  /** A request that no one clears before the watcher's next look cancels at that look. */
  lemma RequestIsSeen(init: State, run: seq<Event>, w: nat, r: nat, k: nat)
    requires init.watching == map[] && init.cancelled == {}
    requires w < k < |run| && run[w].Watch? && Undisturbed(run, run[w].watcher, w + 1, k)
    requires r < k && run[r] == Request(run[w].scan) && NoClear(run, run[w].scan, r, k)
    requires run[k] == Poll(run[w].watcher)
    ensures run[w].token in After(init, run[..k + 1]).cancelled
  {
    var past := run[..k + 1];
    assert forall j :: 0 <= j <= k ==> past[j] == run[j];
    assert Undisturbed(past, run[w].watcher, w + 1, k) && NoClear(past, run[w].scan, r, k);
    assert Found(init, past, run[w].token, w, k);
    CancelledExactlyWhenFound(init, past, run[w].token);
  }

  /** Cancellation is for good. */
  lemma {:induction false} CancellationIsPermanent(init: State, run: seq<Event>, k: nat, token: TokenId)
    requires k <= |run| && token in After(init, run[..k]).cancelled
    ensures token in After(init, run).cancelled
  {
    if k == |run| {
      assert run[..k] == run;
    } else {
      var before := run[..|run| - 1];
      assert before[..k] == run[..k];
      CancellationIsPermanent(init, before, k, token);
    }
  }
}
