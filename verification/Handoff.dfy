// The one-slot message hand-off of ASYNC_SOCKET_HOLDER in common/eda_dde.cpp, as interleaved atomic
// steps of the posting threads, the worker and the destructor. The ready flag is read by Send and
// cleared by the worker without the mutex.
module Handoff {
  import opened Options

  datatype Message = Message(service: int, text: string)

  // Where a thread in Send is: about to lock, holding the lock, past the assignment of the message,
  // past the assignment of the flag.
  datatype Poster = Idle | WantsLock(m: Message) | HasLock(m: Message) | Wrote(m: Message) | Raised(m: Message)

  // Where the worker is. In Top, Awake, Copying and Copied it holds the lock.
  datatype Worker = Starting | Top | Waiting | Awake | Copying | Copied(port: int) | Sending | Relock | Finished

  datatype Destructor = NotYet | Closing | Closed

  datatype Owner = Nobody | Posting(i: nat) | Working | Destroying

  datatype State = State(message: Message, ready: bool, shutdown: bool, lock: Owner,
                         posters: seq<Poster>, worker: Worker, destructor: Destructor,
                         accepted: seq<Message>,  // for which Send returned true, in that order
                         taken: seq<Message>)     // copied by the worker

  function Initial(posters: nat, junk: Message): State {
    State(junk, false, false, Nobody, seq(posters, _ => Idle), Starting, NotYet, [], [])
  }

  datatype Event =
    | Call(i: nat, m: Message)  // Send looks at the flag
    | PosterLocks(i: nat) | PosterWrites(i: nat) | PosterRaises(i: nat) | PosterReturns(i: nat)
    | WorkerLocks               // at the start, after a message, or waking up, spuriously or not
    | WorkerChecks | WorkerCopiesPort | WorkerCopiesText | WorkerSent
    | DestructorLocks | DestructorUnlocks

  // One atomic step; None when the thread is not there or has to wait.
  function Step(s: State, e: Event): Option<State> {
    match e
    case Call(i, m) =>
      if i >= |s.posters| || !s.posters[i].Idle? then None
      else if s.ready then Some(s)  // Send returns false
      else Some(s.(posters := s.posters[i := WantsLock(m)]))
    case PosterLocks(i) =>
      if i < |s.posters| && s.posters[i].WantsLock? && s.lock == Nobody
      then Some(s.(posters := s.posters[i := HasLock(s.posters[i].m)], lock := Posting(i))) else None
    case PosterWrites(i) =>
      if i < |s.posters| && s.posters[i].HasLock?
      then Some(s.(posters := s.posters[i := Wrote(s.posters[i].m)], message := s.posters[i].m)) else None
    case PosterRaises(i) =>
      if i < |s.posters| && s.posters[i].Wrote?
      then Some(s.(posters := s.posters[i := Raised(s.posters[i].m)], ready := true)) else None
    case PosterReturns(i) =>
      if i < |s.posters| && s.posters[i].Raised?
      then Some(s.(posters := s.posters[i := Idle], lock := Nobody, accepted := s.accepted + [s.posters[i].m]))
      else None
    case WorkerLocks =>
      if s.lock != Nobody then None
      else if s.worker.Starting? || s.worker.Relock? then Some(s.(worker := Top, lock := Working))
      else if s.worker.Waiting? then Some(s.(worker := Awake, lock := Working))
      else None
    case WorkerChecks =>
      if s.worker.Top? && s.shutdown then Some(s.(worker := Finished, lock := Nobody))
      else if s.worker.Top? then Some(s.(worker := Awake))
      else if !s.worker.Awake? then None
      else if !s.ready && !s.shutdown then Some(s.(worker := Waiting, lock := Nobody))
      else if s.shutdown then Some(s.(worker := Finished, lock := Nobody))
      else Some(s.(worker := Copying))
    case WorkerCopiesPort =>
      if s.worker.Copying? then Some(s.(worker := Copied(s.message.service))) else None
    case WorkerCopiesText =>
      if s.worker.Copied?
      then Some(s.(worker := Sending, lock := Nobody, taken := s.taken + [Message(s.worker.port, s.message.text)]))
      else None
    case WorkerSent =>
      if s.worker.Sending? then Some(s.(worker := Relock, ready := false)) else None
    case DestructorLocks =>
      if s.destructor.NotYet? && s.lock == Nobody
      then Some(s.(destructor := Closing, lock := Destroying, shutdown := true)) else None
    case DestructorUnlocks =>
      if s.destructor.Closing? then Some(s.(destructor := Closed, lock := Nobody)) else None
  }

  // A run: every event can happen when its turn comes.
  function Run(s: State, events: seq<Event>): Option<State> {
    if events == [] then Some(s)
    else
      match Run(s, events[..|events| - 1])
      case None => None
      case Some(t) => Step(t, events[|events| - 1])
  }

  // ---- What is promised ----

  // The worker has taken the accepted messages in order, each once, and at most one is still waiting.
  predicate Safe(s: State) {
    s.taken <= s.accepted && |s.accepted| <= |s.taken| + 1
  }

  ghost predicate Reachable(posters: nat, s: State) {
    exists junk, events :: Run(Initial(posters, junk), events) == Some(s)
  }

  // ---- One posting thread ----

  ghost predicate LockHeld(s: State) {
    && (forall i :: 0 <= i < |s.posters| ==>
          (s.lock == Posting(i) <==> s.posters[i].HasLock? || s.posters[i].Wrote? || s.posters[i].Raised?))
    && (s.lock.Posting? ==> s.lock.i < |s.posters|)
    && (s.lock == Working <==> s.worker.Top? || s.worker.Awake? || s.worker.Copying? || s.worker.Copied?)
    && (s.lock == Destroying <==> s.destructor.Closing?)
  }

  predicate Busy(w: Worker) { w.Copying? || w.Copied? || w.Sending? }

  ghost predicate Inv(s: State) {
    && |s.posters| == 1 && LockHeld(s)
    && var p := s.posters[0];
    && (p.WantsLock? || p.HasLock? ==> !s.ready && s.taken == s.accepted)
    && (p.Wrote? ==> !s.ready && s.taken == s.accepted && s.message == p.m)
    && (p.Raised? ==> s.ready && s.taken == s.accepted && s.message == p.m)
    && (Busy(s.worker) ==> p.Idle? && s.ready)
    && (p.Idle? && !s.ready ==> s.accepted == s.taken)
    && (p.Idle? && s.ready && s.worker.Sending? ==> s.accepted == s.taken)
    && (p.Idle? && s.ready && !s.worker.Sending? ==> s.accepted == s.taken + [s.message])
    && (s.worker.Copied? ==> s.worker.port == s.message.service)
  }

  lemma InvStep(s: State, e: Event)
    requires Inv(s) && Step(s, e).Some?
    ensures Inv(Step(s, e).value)
  {
  }

  lemma {:induction false} InvRun(s: State, events: seq<Event>)
    requires Inv(s) && Run(s, events).Some?
    ensures Inv(Run(s, events).value)
  {
    if events != [] {
      InvRun(s, events[..|events| - 1]);
      InvStep(Run(s, events[..|events| - 1]).value, events[|events| - 1]);
    }
  }

  // In every reachable state: order, no loss, no duplicate; no accepted message is overwritten before
  // it is taken; and Send refuses only while an accepted message is waiting or being sent.
  lemma OnePoster(s: State)
    requires Reachable(1, s)
    ensures Safe(s)
    ensures Step(s, PosterWrites(0)).Some? ==> s.taken == s.accepted
    ensures |s.posters| == 1 && s.posters[0].Idle? && s.ready ==> |s.accepted| == |s.taken| + 1 || s.worker.Sending?
  {
    var junk, events :| Run(Initial(1, junk), events) == Some(s);
    InvRun(Initial(1, junk), events);
    var p := s.posters[0];
    assert p.Idle? || p.WantsLock? || p.HasLock? || p.Wrote? || p.Raised?;
  }

  // ---- Two posting threads ----

  lemma Play(start: State, events: seq<Event>, s: State, e: Event) returns (longer: seq<Event>, next: State)
    requires Run(start, events) == Some(s) && Step(s, e).Some?
    ensures longer == events + [e] && Some(next) == Step(s, e) && Run(start, longer) == Some(next)
  {
    longer, next := events + [e], Step(s, e).value;
    assert longer[..|events|] == events;
  }

  // The part of Send that follows the look at the flag, undisturbed.
  lemma FinishSend(start: State, events: seq<Event>, s: State, i: nat) returns (longer: seq<Event>, next: State)
    requires Run(start, events) == Some(s) && s.lock == Nobody && i < |s.posters| && s.posters[i].WantsLock?
    ensures var m := s.posters[i].m;
      next == s.(posters := s.posters[i := Idle], message := m, ready := true, accepted := s.accepted + [m])
    ensures Run(start, longer) == Some(next)
  {
    hide Run;
    longer, next := Play(start, events, s, PosterLocks(i));
    longer, next := Play(start, longer, next, PosterWrites(i));
    longer, next := Play(start, longer, next, PosterRaises(i));
    longer, next := Play(start, longer, next, PosterReturns(i));
    assert next.posters == s.posters[i := Idle];
  }

  // The worker picks up the message of an untouched slot.
  lemma TakeFirst(start: State, events: seq<Event>, s: State) returns (longer: seq<Event>, next: State)
    requires Run(start, events) == Some(s) && s.lock == Nobody && s.worker == Starting && s.ready && !s.shutdown
    ensures next == s.(worker := Sending, taken := s.taken + [s.message])
    ensures Run(start, longer) == Some(next)
  {
    hide Run;
    longer, next := Play(start, events, s, WorkerLocks);
    longer, next := Play(start, longer, next, WorkerChecks);
    longer, next := Play(start, longer, next, WorkerChecks);
    longer, next := Play(start, longer, next, WorkerCopiesPort);
    longer, next := Play(start, longer, next, WorkerCopiesText);
  }

  // Both look at the flag before either raises it; the second message replaces the first.
  lemma TwoPostersLose(posters: nat, a: Message, b: Message) returns (s: State)
    requires posters >= 2 && a != b
    ensures Reachable(posters, s) && s.accepted == [a, b] && s.taken == [b] && !Safe(s)
  {
    var start := Initial(posters, a);
    var run: seq<Event>;
    run, s := BothLook(posters, a, b);
    hide Run, Step;
    run, s := FinishSend(start, run, s, 0);
    run, s := FinishSend(start, run, s, 1);
    run, s := TakeFirst(start, run, s);
    assert s.accepted == [a, b] && s.taken == [b];
    assert s.taken[0] != s.accepted[0];
  }

  lemma BothLook(posters: nat, a: Message, b: Message) returns (run: seq<Event>, s: State)
    requires posters >= 2
    ensures Run(Initial(posters, a), run) == Some(s)
    ensures s == Initial(posters, a).(posters := s.posters) && |s.posters| == posters
    ensures s.posters[0] == WantsLock(a) && s.posters[1] == WantsLock(b)
  {
    var start := Initial(posters, a);
    run, s := Play(start, [], start, Call(0, a));
    run, s := Play(start, run, s, Call(1, b));
  }

  lemma {:induction false} NobodyPosts(s: State, events: seq<Event>)
    requires s.posters == [] && !s.ready && !Busy(s.worker) && s.taken == s.accepted == []
    requires Run(s, events).Some?
    ensures var t := Run(s, events).value;
      t.posters == [] && !t.ready && !Busy(t.worker) && t.taken == t.accepted == []
  {
    if events != [] {
      NobodyPosts(s, events[..|events| - 1]);
    }
  }

  // The hand-off is safe for one posting thread, and for no larger number of them.
  lemma SafeExactlyForOne(posters: nat)
    ensures (forall s :: Reachable(posters, s) ==> Safe(s)) <==> posters <= 1
  {
    if posters == 0 {
      forall s | Reachable(0, s) ensures Safe(s) {
        var junk, events :| Run(Initial(0, junk), events) == Some(s);
        NobodyPosts(Initial(0, junk), events);
      }
    } else if posters == 1 {
      forall s | Reachable(1, s) ensures Safe(s) { OnePoster(s); }
    } else {
      var s := TwoPostersLose(posters, Message(0, "a"), Message(0, "b"));
    }
  }

  // A message sent to a waiting worker is taken and handed to the socket, and then the slot is free again.
  lemma Delivered(start: State, events: seq<Event>, s: State, i: nat, m: Message)
      returns (longer: seq<Event>, next: State)
    requires Run(start, events) == Some(s) && s.lock == Nobody && i < |s.posters| && s.posters[i].Idle?
    requires s.worker.Waiting? && !s.ready && !s.shutdown
    ensures Run(start, longer) == Some(next)
    ensures next.accepted == s.accepted + [m] && next.taken == s.taken + [m]
    ensures !next.ready && next.lock == Nobody && next.worker.Relock? && next.posters == s.posters
  {
    hide Run;
    longer, next := Play(start, events, s, Call(i, m));
    longer, next := FinishSend(start, longer, next, i);
    longer, next := Play(start, longer, next, WorkerLocks);
    longer, next := Play(start, longer, next, WorkerChecks);
    longer, next := Play(start, longer, next, WorkerCopiesPort);
    longer, next := Play(start, longer, next, WorkerCopiesText);
    longer, next := Play(start, longer, next, WorkerSent);
    assert next.posters == s.posters;
  }

  // While a message is waiting Send refuses and changes nothing.
  lemma Refused(s: State, i: nat, m: Message)
    requires s.ready && i < |s.posters| && s.posters[i].Idle?
    ensures Step(s, Call(i, m)) == Some(s)
  {
  }

  // The destructor makes a worker that gets the lock behind it end without taking anything more.
  lemma ShutDown(start: State, events: seq<Event>, s: State) returns (longer: seq<Event>, next: State)
    requires Run(start, events) == Some(s) && s.lock == Nobody && s.destructor.NotYet?
    requires s.worker.Starting? || s.worker.Waiting? || s.worker.Relock?
    ensures Run(start, longer) == Some(next)
    ensures next == s.(worker := Finished, destructor := Closed, shutdown := true)
  {
    hide Run;
    longer, next := Play(start, events, s, DestructorLocks);
    longer, next := Play(start, longer, next, DestructorUnlocks);
    longer, next := Play(start, longer, next, WorkerLocks);
    longer, next := Play(start, longer, next, WorkerChecks);
  }
}
