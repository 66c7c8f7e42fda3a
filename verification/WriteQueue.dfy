/** The write queue and the tokens that wake the worker (oip_comms.cpp, oip_blocking_queue.cpp), as a state machine
    over atomic queue operations: any number of callers, one worker, every interleaving. */
module WriteQueue {
  /** What is on the token queue. A wake-up carries the write it was pushed for, a cleanup the number of writes
      accepted before it; the program itself knows neither. */
  datatype Token = Wake(write: nat) | Group | Cleanup(before: nat)

  /** Where the worker is in its loop. */
  datatype Worker = AtPop | FlushFirst(before: nat) | Destroy(before: nat) | Flush | Handle

  /** `accepted` are all writes ever pushed, in order; `pending` are those whose caller has still to push the token;
      `cleanups` records for every cleanup done how many writes came before its token and how many were processed. */
  datatype State = State(
    writes: seq<nat>, tokens: seq<Token>, worker: Worker,
    pending: set<nat>, accepted: seq<nat>, processed: seq<nat>, cleanups: seq<(nat, nat)>)

  const INITIAL: State := State([], [], AtPop, {}, [], [], [])

  datatype Step =
    | PushWrite
    | PushWake(write: nat)
    | PushGroup
    | PushCleanup
    | WorkerStep

  predicate Blocked(s: State) {
    s.worker == AtPop && s.tokens == []
  }

  predicate Enabled(s: State, step: Step) {
    match step
    case PushWake(w) => w in s.pending
    case WorkerStep => !Blocked(s)
    case _ => true
  }

  /** The worker's loop, one queue operation at a time. */
  function Work(s: State): State
    requires !Blocked(s)
  {
    match s.worker
    case AtPop =>
      s.(tokens := s.tokens[1..],
         worker := if s.tokens[0].Cleanup? then FlushFirst(s.tokens[0].before) else Flush)
    case FlushFirst(n) => if s.writes == [] then s.(worker := Destroy(n)) else FlushOne(s)
    case Destroy(n) => s.(worker := Flush, cleanups := s.cleanups + [(n, |s.processed|)])
    case Flush => if s.writes == [] then s.(worker := Handle) else FlushOne(s)
    case Handle => s.(worker := AtPop)
  }

  function FlushOne(s: State): State
    requires s.writes != []
  {
    s.(writes := s.writes[1..], processed := s.processed + [s.writes[0]])
  }

  function Apply(s: State, step: Step): State
    requires Enabled(s, step)
  {
    match step
    case PushWrite =>
      var w := |s.accepted|;
      s.(writes := s.writes + [w], accepted := s.accepted + [w], pending := s.pending + {w})
    case PushWake(w) => s.(tokens := s.tokens + [Wake(w)], pending := s.pending - {w})
    case PushGroup => s.(tokens := s.tokens + [Group])
    case PushCleanup => s.(tokens := s.tokens + [Cleanup(|s.accepted|)])
    case WorkerStep => Work(s)
  }

  predicate Runs(s: State, steps: seq<Step>)
    decreases |steps|
  {
    steps == [] || (Enabled(s, steps[0]) && Runs(Apply(s, steps[0]), steps[1..]))
  }

  function After(s: State, steps: seq<Step>): State
    requires Runs(s, steps)
    decreases |steps|
  {
    if steps == [] then s else After(Apply(s, steps[0]), steps[1..])
  }

  // ----- What every step keeps -----

  /** The write will be seen: its caller has yet to push the token, or the token is there. */
  predicate Announced(s: State, w: nat) {
    w in s.pending || Wake(w) in s.tokens
  }

  /** The worker has popped a token and not yet found the write queue empty after it. */
  predicate Flushing(k: Worker) {
    k.FlushFirst? || k.Destroy? || k.Flush?
  }

  ghost predicate NoneStranded(s: State) {
    Flushing(s.worker) || forall w :: w in s.writes ==> Announced(s, w)
  }

  ghost predicate InOrder(s: State) {
    s.processed + s.writes == s.accepted && forall i :: 0 <= i < |s.accepted| ==> s.accepted[i] == i
  }

  ghost predicate CleanupsLate(s: State) {
    && (forall t :: t in s.tokens && t.Cleanup? ==> t.before <= |s.accepted|)
    && (s.worker.FlushFirst? ==> s.worker.before <= |s.accepted|)
    && (s.worker.Destroy? ==> s.worker.before <= |s.processed|)
    && (forall c :: c in s.cleanups ==> c.0 <= c.1 <= |s.processed|)
  }

  ghost predicate Inv(s: State) {
    NoneStranded(s) && InOrder(s) && CleanupsLate(s)
  }

  lemma StepKeepsAnnounced(s: State, step: Step)
    requires Enabled(s, step) && NoneStranded(s)
    ensures NoneStranded(Apply(s, step))
  {
    var t := Apply(s, step);
    if !Flushing(t.worker) {
      forall w | w in t.writes ensures Announced(t, w) {
        if w in s.writes && Announced(s, w) {
          if Wake(w) in s.tokens && step != WorkerStep {
            assert Wake(w) in t.tokens;
          }
          if step == PushWake(w) {
            assert t.tokens[|s.tokens|] == Wake(w);
          }
        }
      }
    }
  }

  lemma StepKeepsOrder(s: State, step: Step)
    requires Enabled(s, step) && InOrder(s)
    ensures InOrder(Apply(s, step))
  {
    var t := Apply(s, step);
    if step == PushWrite {
      assert s.processed + (s.writes + [|s.accepted|]) == s.processed + s.writes + [|s.accepted|];
    } else if step == WorkerStep && s.writes != [] {
      assert s.processed + [s.writes[0]] + s.writes[1..] == s.processed + s.writes;
    }
  }

  lemma StepKeepsCleanups(s: State, step: Step)
    requires Enabled(s, step) && InOrder(s) && CleanupsLate(s)
    ensures CleanupsLate(Apply(s, step))
  {
    assert |s.processed| + |s.writes| == |s.accepted|;
  }

  /** Every run, in whatever order callers and worker move, stays within the invariant. */
  lemma {:induction false} RunKeeps(s: State, steps: seq<Step>)
    requires Inv(s) && Runs(s, steps)
    ensures Inv(After(s, steps))
    decreases |steps|
  {
    if steps != [] {
      StepKeepsAnnounced(s, steps[0]);
      StepKeepsOrder(s, steps[0]);
      StepKeepsCleanups(s, steps[0]);
      RunKeeps(Apply(s, steps[0]), steps[1..]);
    }
  }

  /** At every moment of every run: the oldest write still queued is announced by its caller or its token, or the worker
      is on its way to it; writes are processed once and in order; a cleanup comes after all writes before its token. */
  lemma NoStrandedWrite(steps: seq<Step>)
    requires Runs(INITIAL, steps)
    ensures var s := After(INITIAL, steps);
            && (s.writes != [] ==> Announced(s, s.writes[0]) || Flushing(s.worker))
            && s.processed <= s.accepted && (forall i :: 0 <= i < |s.accepted| ==> s.accepted[i] == i)
            && (Blocked(s) && s.pending == {} ==> s.processed == s.accepted)
            && (forall c :: c in s.cleanups ==> c.0 <= c.1)
  {
    assert Inv(INITIAL);
    RunKeeps(INITIAL, steps);
    var s := After(INITIAL, steps);
    assert s.writes != [] ==> s.writes[0] in s.writes;
    if s.writes == [] {
      assert s.processed + s.writes == s.processed;
    }
  }

  // ----- The worker gets there -----

  function Rank(k: Worker): nat {
    match k
    case FlushFirst(_) => 4
    case Destroy(_) => 3
    case Flush => 2
    case Handle => 1
    case AtPop => 0
  }

  /** The worker alone, until it waits for a token. */
  function WorkUntilBlocked(s: State): State
    decreases |s.tokens|, Rank(s.worker), |s.writes|
  {
    if Blocked(s) then s else WorkUntilBlocked(Work(s))
  }

  lemma {:induction false} WorkKeeps(s: State)
    requires Inv(s)
    ensures var t := WorkUntilBlocked(s);
            Inv(t) && Blocked(t) && t.accepted == s.accepted && t.pending == s.pending
    decreases |s.tokens|, Rank(s.worker), |s.writes|
  {
    if !Blocked(s) {
      StepKeepsAnnounced(s, WorkerStep);
      StepKeepsOrder(s, WorkerStep);
      StepKeepsCleanups(s, WorkerStep);
      WorkKeeps(Work(s));
    }
  }

  /** From every moment of every run in which no caller is between its two pushes, the worker alone processes every
      accepted write before it waits again. */
  lemma AllProcessed(steps: seq<Step>)
    requires Runs(INITIAL, steps) && After(INITIAL, steps).pending == {}
    ensures WorkUntilBlocked(After(INITIAL, steps)).processed == After(INITIAL, steps).accepted
  {
    assert Inv(INITIAL);
    RunKeeps(INITIAL, steps);
    var s := After(INITIAL, steps);
    WorkKeeps(s);
    var t := WorkUntilBlocked(s);
    assert t.writes != [] ==> Announced(t, t.writes[0]);
    assert t.processed + t.writes == t.accepted;
  }

  /** Whatever token it popped, the worker handles it only when every write accepted so far is processed. */
  lemma FlushedBeforeHandling(steps: seq<Step>)
    requires Runs(INITIAL, steps)
    requires var s := After(INITIAL, steps); s.worker != Handle && !Blocked(s) && Work(s).worker == Handle
    ensures After(INITIAL, steps).processed == After(INITIAL, steps).accepted
  {
    assert Inv(INITIAL);
    RunKeeps(INITIAL, steps);
    var s := After(INITIAL, steps);
    assert s.writes == [];
    assert s.processed + s.writes == s.processed;
  }
}
