/** Matching an update on a stream, with cleanup that neither masks a failure nor is skipped. */
module UpdateStreams {
  import opened Wrappers

  /** A thrown value; a timeout of the transport is rethrown with an explanation. */
  datatype Error = DeadlineExceeded(id: nat) | Other(id: nat) | StreamEnded | TimedOut(cause: Error)

  datatype Outcome<+T> = Return(value: T) | Throw(error: Error)

  /** One settled read of the stream. */
  datatype Read<+U> = Yield(update: U) | Done | Failed(error: Error)

  datatype Effect = Next | Submit | Cancel | Release

  function MapUpdateStreamError(error: Error): Error {
    if error.DeadlineExceeded? then TimedOut(error) else error
  }

  /**
   * A stream and the callbacks of one caller. The callbacks may answer differently at each read.
   * `cancel` and `release` are absent or an operation that may throw.
   */
  datatype Script<!U, M> = Script(
    results: seq<Read<U>>,
    reject: (nat, U) -> Option<Error>,
    matcher: (nat, U) -> Outcome<Option<M>>,
    cancel: Option<Option<Error>>,
    release: Option<Option<Error>>)
  {
    /** A stream that has nothing more to say is done. */
    function ReadAt(k: nat): Read<U> {
      if k < |results| then results[k] else Done
    }

    /** What the reads from k on come to, cleanup aside; also the index of the last one. */
    function Primary(k: nat): (r: (Outcome<M>, nat))
      ensures r.1 >= k
      decreases |results| - k
    {
      match ReadAt(k)
      case Failed(error) => (Throw(MapUpdateStreamError(error)), k)
      case Done => (Throw(StreamEnded), k)
      case Yield(update) =>
        if reject(k, update).Some? then (Throw(reject(k, update).value), k)
        else
          match matcher(k, update)
          case Throw(error) => (Throw(error), k)
          case Return(Some(m)) => (Return(m), k)
          case Return(None) => Primary(k + 1)
    }

    ghost predicate Passes(k: nat) {
      ReadAt(k).Yield? && reject(k, ReadAt(k).update).None? && matcher(k, ReadAt(k).update) == Return(None)
    }

    /** The read or its update fails; a deadline that ran out is explained, other failures are kept. */
    ghost predicate Fails(k: nat, error: Error) {
      match ReadAt(k)
      case Failed(cause) => error == (match cause case DeadlineExceeded(_) => TimedOut(cause) case _ => cause)
      case Done => error == StreamEnded
      case Yield(update) =>
        || reject(k, update) == Some(error)
        || (reject(k, update).None? && matcher(k, update) == Throw(error))
    }

    ghost predicate Matches(k: nat, m: M) {
      ReadAt(k).Yield? && reject(k, ReadAt(k).update).None? && matcher(k, ReadAt(k).update) == Return(Some(m))
    }
  }

  function Thrown(operation: Option<Option<Error>>): Option<Error> {
    if operation.Some? then operation.value else None
  }

  /** The order of precedence: the primary failure, then the first cleanup failure. */
  function Surfaced<M>(primary: Outcome<M>, first: Option<Error>, second: Option<Error>): Outcome<M> {
    if primary.Throw? then primary
    else if first.Some? then Throw(first.value)
    else if second.Some? then Throw(second.value)
    else primary
  }

  function Attempt(operation: Option<Option<Error>>, effect: Effect): seq<Effect> {
    if operation.Some? then [effect] else []
  }

  function Nexts(count: nat): seq<Effect> {
    seq(count, _ => Next)
  }

  class Session<U, M> {
    const script: Script<U, M>
    var log: seq<Effect>
    var position: nat

    constructor (script: Script<U, M>)
      ensures this.script == script && log == [] && position == 0
    {
      this.script := script;
      log := [];
      position := 0;
    }

    /** The first read was requested before the session; later ones are requested here. */
    method AwaitFirst() returns (r: Outcome<Read<U>>)
      ensures r == if script.ReadAt(position).Failed?
                   then Throw(MapUpdateStreamError(script.ReadAt(position).error)) else Return(script.ReadAt(position))
    {
      var read := script.ReadAt(position);
      match read
      case Failed(error) => return Throw(MapUpdateStreamError(error));
      case _ => return Return(read);
    }

    method AwaitNext() returns (r: Outcome<Read<U>>)
      modifies this
      ensures position == old(position) + 1 && log == old(log) + [Next]
      ensures r == if script.ReadAt(position).Failed?
                   then Throw(MapUpdateStreamError(script.ReadAt(position).error)) else Return(script.ReadAt(position))
    {
      position := position + 1;
      log := log + [Next];
      r := AwaitFirst();
    }

    /** Runs an operation and forgets its failure when something already failed. */
    method CleanupWithoutMasking(operation: Option<Option<Error>>, effect: Effect, primaryFailed: bool)
      returns (thrown: Option<Error>)
      modifies this`log
      ensures log == old(log) + Attempt(operation, effect)
      ensures thrown == if primaryFailed then None else Thrown(operation)
    {
      log := log + Attempt(operation, effect);
      thrown := if operation.Some? && !primaryFailed then operation.value else None;
    }

    /** Cancels, then releases the iterator; the first failure surfaces unless a primary one did. */
    method CleanupStream(primaryFailed: bool) returns (thrown: Option<Error>)
      modifies this`log
      ensures log == old(log) + Attempt(script.cancel, Cancel) + Attempt(script.release, Release)
      ensures thrown == if primaryFailed then None
                        else if Thrown(script.cancel).Some? then Thrown(script.cancel) else Thrown(script.release)
    {
      var cleanupFailed := false;
      thrown := None;
      if script.cancel.Some? {
        thrown := CleanupWithoutMasking(script.cancel, Cancel, primaryFailed);
        cleanupFailed := thrown.Some?;
      }
      var second := CleanupWithoutMasking(script.release, Release, primaryFailed || cleanupFailed);
      if second.Some? {
        thrown := second;
        cleanupFailed := true;
      }
      return if cleanupFailed && !primaryFailed then thrown else None;
    }

    /** The reading loop: exactly the primary outcome, one `next` for every read behind the first. */
    method ReadUntilMatched() returns (r: Outcome<M>)
      requires position == 0
      modifies this
      ensures r == script.Primary(0).0
      ensures log == old(log) + Nexts(script.Primary(0).1)
    {
      ghost var primary := script.Primary(0);
      var next := AwaitFirst();
      while true
        invariant script.Primary(position) == primary
        invariant log == old(log) + Nexts(position)
        invariant var read := script.ReadAt(position);
                  next == if read.Failed? then Throw(MapUpdateStreamError(read.error)) else Return(read)
        decreases |script.results| - position
      {
        if next.Throw? {
          return Throw(next.error);
        }
        if next.value.Done? {
          return Throw(StreamEnded);
        }
        var update := next.value.update;
        var rejected := script.reject(position, update);
        if rejected.Some? {
          return Throw(rejected.value);
        }
        var matched := script.matcher(position, update);
        if matched.Throw? {
          return Throw(matched.error);
        }
        if matched.value.Some? {
          return Return(matched.value.value);
        }
        assert Nexts(position + 1) == Nexts(position) + [Next];
        next := AwaitNext();
      }
    }

    /** Cancels and releases once each, after the reads, whatever happened. */
    method MatchResumedUpdate() returns (r: Outcome<M>)
      requires position == 0
      modifies this
      ensures r == Surfaced(script.Primary(0).0, Thrown(script.cancel), Thrown(script.release))
      ensures log
           == old(log) + Nexts(script.Primary(0).1) + Attempt(script.cancel, Cancel) + Attempt(script.release, Release)
    {
      r := ReadUntilMatched();
      var thrown := CleanupStream(r.Throw?);
      if thrown.Some? {
        r := Throw(thrown.value);
      }
    }

    /**
     * Submits, then reads: a failed submission cancels the stream and is rethrown; a submitted
     * one is only released. The script's `reject` is the one of a caller that rejects nothing.
     */
    method SubmitAndMatchUpdate(submission: Option<Error>) returns (r: Outcome<M>)
      requires position == 0
      requires forall k, u :: script.reject(k, u).None?
      modifies this
      ensures r == Surfaced(if submission.Some? then Throw(submission.value) else script.Primary(0).0,
                            Thrown(script.release), None)
      ensures log == old(log) + [Submit]
                + (if submission.Some? then Attempt(script.cancel, Cancel) else Nexts(script.Primary(0).1))
                + Attempt(script.release, Release)
    {
      log := log + [Submit];
      if submission.Some? {
        var _ := CleanupWithoutMasking(script.cancel, Cancel, true);
        r := Throw(submission.value);
      } else {
        r := ReadUntilMatched();
      }
      var thrown := CleanupWithoutMasking(script.release, Release, r.Throw?);
      if thrown.Some? {
        r := Throw(thrown.value);
      }
    }
  }

  /** The reads end in a match exactly at the first matching update, all before it having passed. */
  lemma {:induction false} MatchIsFirst<U, M>(script: Script<U, M>, k: nat, n: nat, m: M)
    requires k <= n
    ensures script.Primary(k) == (Return(m), n) <==>
            script.Matches(n, m) && forall j :: k <= j < n ==> script.Passes(j)
    decreases n - k
  {
    if script.Passes(k) {
      if k < n {
        MatchIsFirst(script, k + 1, n, m);
      }
    } else if k < n {
      assert script.Primary(k).1 == k;
    }
  }

  /**
   * A match is returned exactly when the reads end in it and no cleanup fails; a failure of the
   * reads is never replaced by one of the cleanup.
   */
  lemma MatchSurfaces<U, M>(script: Script<U, M>, m: M)
    ensures Surfaced(script.Primary(0).0, Thrown(script.cancel), Thrown(script.release)) == Return(m) <==>
            Thrown(script.cancel).None? && Thrown(script.release).None?
            && exists n: nat :: script.Matches(n, m) && forall j :: 0 <= j < n ==> script.Passes(j)
    ensures script.Primary(0).0.Throw? ==>
            Surfaced(script.Primary(0).0, Thrown(script.cancel), Thrown(script.release)) == script.Primary(0).0
  {
    var primary := script.Primary(0);
    MatchIsFirst(script, 0, primary.1, m);
    if n: nat :| script.Matches(n, m) && forall j :: 0 <= j < n ==> script.Passes(j) {
      MatchIsFirst(script, 0, n, m);
    }
  }

  /** The reads end in a failure exactly at the first failing read, all before it having passed. */
  lemma {:induction false} FailureIsFirst<U, M>(script: Script<U, M>, k: nat, n: nat, error: Error)
    requires k <= n
    ensures script.Primary(k) == (Throw(error), n) <==>
            script.Fails(n, error) && forall j :: k <= j < n ==> script.Passes(j)
    decreases n - k
  {
    if script.Passes(k) {
      if k < n {
        FailureIsFirst(script, k + 1, n, error);
      }
    } else if k < n {
      assert script.Primary(k).1 == k;
    }
  }

  /** Which failure surfaces: that of the first failing read, else that of cancelling, else that of the release. */
  lemma FailureSurfaces<U, M>(script: Script<U, M>, error: Error)
    ensures Surfaced(script.Primary(0).0, Thrown(script.cancel), Thrown(script.release)) == Throw(error) <==>
            || (exists n: nat :: script.Fails(n, error) && forall j :: 0 <= j < n ==> script.Passes(j))
            || ((exists n: nat, m :: script.Matches(n, m) && forall j :: 0 <= j < n ==> script.Passes(j))
                && (script.cancel == Some(Some(error))
                    || ((script.cancel.None? || script.cancel.value.None?) && script.release == Some(Some(error)))))
  {
    ReadsFail(script, error);
    ReadsMatch(script);
  }

  lemma ReadsFail<U, M>(script: Script<U, M>, error: Error)
    ensures (exists n: nat :: script.Fails(n, error) && forall j :: 0 <= j < n ==> script.Passes(j)) <==>
            script.Primary(0).0 == Throw(error)
  {
    FailureIsFirst(script, 0, script.Primary(0).1, error);
    if n: nat :| script.Fails(n, error) && forall j :: 0 <= j < n ==> script.Passes(j) {
      FailureIsFirst(script, 0, n, error);
    }
  }

  lemma ReadsMatch<U, M>(script: Script<U, M>)
    ensures (exists n: nat, m :: script.Matches(n, m) && forall j :: 0 <= j < n ==> script.Passes(j)) <==>
            script.Primary(0).0.Return?
  {
    var primary := script.Primary(0);
    if primary.0.Return? {
      assert primary == (Return(primary.0.value), primary.1);
      MatchIsFirst(script, 0, primary.1, primary.0.value);
      assert script.Matches(primary.1, primary.0.value);
    }
    if n: nat, m :| script.Matches(n, m) && forall j :: 0 <= j < n ==> script.Passes(j) {
      MatchIsFirst(script, 0, n, m);
    }
  }

  // Disposal of a client.

  datatype Action = StartDisposal | DisposeUnlessStarted | Microtask

  /** Whether disposal was started, whether its promise still has to run, and how often it ran. */
  datatype Disposal = Disposal(started: bool, queued: bool, runs: nat)

  function Step(d: Disposal, action: Action): Disposal {
    match action
    case StartDisposal => if d.started then d else Disposal(true, true, d.runs)
    case DisposeUnlessStarted => if d.started then d else Disposal(true, true, d.runs)
    case Microtask => if d.queued then Disposal(d.started, false, d.runs + 1) else d
  }

  function Run(actions: seq<Action>): Disposal {
    if actions == [] then Disposal(false, false, 0)
    else Step(Run(actions[..|actions| - 1]), actions[|actions| - 1])
  }

  /** Under any interleaving the client is disposed once when disposal was asked for and ran, else not at all. */
  lemma {:induction false} DisposedAtMostOnce(actions: seq<Action>)
    ensures var d := Run(actions);
            && (d.started <==> StartDisposal in actions || DisposeUnlessStarted in actions)
            && (d.queued ==> d.started)
            && d.runs == if d.started && !d.queued then 1 else 0
  {
    if actions != [] {
      DisposedAtMostOnce(actions[..|actions| - 1]);
      assert actions == actions[..|actions| - 1] + [actions[|actions| - 1]];
    }
  }

  class ClientDisposalLifecycle {
    var disposalStarted: bool
    var queued: bool
    var runs: nat

    ghost function State(): Disposal
      reads this
    {
      Disposal(disposalStarted, queued, runs)
    }

    constructor ()
      ensures State() == Run([])
    {
      disposalStarted, queued, runs := false, false, 0;
    }

    /** Only the first call creates the promise; later ones return it. */
    method StartDisposal()
      modifies this
      ensures State() == Step(old(State()), Action.StartDisposal)
    {
      if !disposalStarted {
        disposalStarted := true;
        queued := true;
      }
    }

    method DisposeUnlessStarted()
      modifies this
      ensures State() == Step(old(State()), Action.DisposeUnlessStarted)
    {
      if !disposalStarted {
        StartDisposal();
      }
    }

    /** The promise job that calls the client's own disposal. */
    method RunMicrotask()
      modifies this
      ensures State() == Step(old(State()), Microtask)
    {
      if queued {
        queued := false;
        runs := runs + 1;
      }
    }
  }
}
