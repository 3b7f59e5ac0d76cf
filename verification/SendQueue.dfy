/**
 The queue of messages sent by other threads (cpp/game/rakhook.cpp), as a state machine: worker threads and the main
 thread take steps in any order, and handlers on the main thread call back into the hooks.
 */
module SendQueue {
  /** A packet or remote call; its number tells it from others. */
  datatype Msg = Msg(number: nat, isRpc: bool, empty: bool)

  /** Empty packets go out as they are. */
  predicate Bypasses(m: Msg) {
    !m.isRpc && m.empty
  }

  datatype Source = Direct | Queued
  datatype Owner = Nobody | MainThread | Worker(w: nat)
  datatype Mark = NoMark | Mark(n: nat)

  /** Where a worker is in sending a message. */
  datatype WorkerAt = Idle | Waiting(m: Msg) | Holding(m: Msg) | Pushed

  /**
   A call on the stack of the main thread: a hook that has just been entered, a hook or a raw send that is waiting for
   or past rakhook::process, handlers at work, and the stages of rakhook::process. A mark is how many messages had been
   queued when the mutex was taken on behalf of the call.
   */
  datatype Frame =
    | Entered(m: Msg, src: Source)
    | Ready(m: Msg, src: Source, mark: Mark)
    | RawSend(m: Msg, mark: Mark)
    | Handlers(m: Msg)
    | Process
    | Locking
    | Draining(i: nat)

  datatype Event = Presented(m: Msg, src: Source) | Forwarded(m: Msg)

  /** The shared state, the threads, and for reference the history and where the stack holds the drain. */
  datatype State = State(
    queue: seq<Msg>, owner: Owner, processing: bool, stack: seq<Frame>, workers: seq<WorkerAt>,
    log: seq<Event>, enqueued: seq<Msg>, cleared: nat, drainAt: nat)

  predicate Init(s: State) {
    && s.queue == [] && s.owner == Nobody && !s.processing && s.stack == []
    && (forall w :: 0 <= w < |s.workers| ==> s.workers[w] == Idle)
    && s.log == [] && s.enqueued == [] && s.cleared == 0
  }

  // ---------- steps ----------

  datatype Action =
    | WorkerSends(w: nat, m: Msg)
    | WorkerLocks(w: nat)
    | WorkerPushes(w: nat)
    | WorkerUnlocks(w: nat)
    | CallHook(m: Msg)
    | CallRaw(m: Msg)
    | CallProcess
    | Continue
    | HandlersDone(veto: bool, m: Msg)

  function Top(s: State): Frame
    requires s.stack != []
  {
    s.stack[|s.stack| - 1]
  }

  function Below(s: State): seq<Frame>
    requires s.stack != []
  {
    s.stack[..|s.stack| - 1]
  }

  /** The main thread is in its own code: outside all calls, or in a handler. */
  predicate AtLeisure(s: State) {
    s.stack == [] || Top(s).Handlers?
  }

  predicate Enabled(s: State, a: Action) {
    match a
    case WorkerSends(w, m) => w < |s.workers| && s.workers[w].Idle?
    case WorkerLocks(w) => w < |s.workers| && s.workers[w].Waiting? && s.owner == Nobody
    case WorkerPushes(w) => w < |s.workers| && s.workers[w].Holding?
    case WorkerUnlocks(w) => w < |s.workers| && s.workers[w].Pushed?
    case CallHook(_) => AtLeisure(s)
    case CallRaw(_) => AtLeisure(s)
    case CallProcess => AtLeisure(s)
    case Continue => s.stack != [] && !Top(s).Handlers? && (Top(s).Locking? ==> s.owner == Nobody)
    case HandlersDone(_, _) => s.stack != [] && Top(s).Handlers?
  }

  /** The frame below rakhook::process learns how much had been queued when the mutex was taken. */
  function Marked(f: Frame, n: nat): Frame {
    match f
    case Ready(m, src, _) => Ready(m, src, Mark(n))
    case RawSend(m, _) => RawSend(m, Mark(n))
    case _ => f
  }

  function MarkLast(stack: seq<Frame>, n: nat): (r: seq<Frame>)
    ensures |r| == |stack|
  {
    if stack == [] then [] else stack[..|stack| - 1] + [Marked(stack[|stack| - 1], n)]
  }

  /** The main thread goes on with the call on top of its stack. */
  function Continued(s: State): State
    requires Enabled(s, Continue)
  {
    match Top(s)
    case Entered(m, src) =>
      if Bypasses(m) then s.(stack := Below(s), log := s.log + [Forwarded(m)])
      else if s.processing then s.(stack := Below(s) + [Ready(m, src, NoMark)])
      else s.(stack := Below(s) + [Ready(m, src, NoMark), Process])
    case Ready(m, src, _) => s.(stack := Below(s) + [Handlers(m)], log := s.log + [Presented(m, src)])
    case RawSend(m, _) => s.(stack := Below(s), log := s.log + [Forwarded(m)])
    case Handlers(_) => s
    case Process => if s.processing then s.(stack := Below(s)) else s.(stack := Below(s) + [Locking])
    case Locking =>
      s.(owner := MainThread, processing := true, stack := MarkLast(Below(s), |s.enqueued|) + [Draining(0)],
         drainAt := |s.stack| - 1)
    case Draining(i) =>
      if i < |s.queue| then s.(stack := Below(s) + [Draining(i + 1), Entered(s.queue[i], Queued)])
      else s.(stack := Below(s), queue := [], processing := false, owner := Nobody, cleared := s.cleared + |s.queue|)
  }

  function Apply(s: State, a: Action): State
    requires Enabled(s, a)
  {
    match a
    case WorkerSends(w, m) =>
      if Bypasses(m) then s.(log := s.log + [Forwarded(m)]) else s.(workers := s.workers[w := Waiting(m)])
    case WorkerLocks(w) => s.(workers := s.workers[w := Holding(s.workers[w].m)], owner := Worker(w))
    case WorkerPushes(w) =>
      s.(workers := s.workers[w := Pushed], queue := s.queue + [s.workers[w].m],
        enqueued := s.enqueued + [s.workers[w].m])
    case WorkerUnlocks(w) => s.(workers := s.workers[w := Idle], owner := Nobody)
    case CallHook(m) => s.(stack := s.stack + [Entered(m, Direct)])
    case CallRaw(m) => s.(stack := s.stack + [RawSend(m, NoMark), Process])
    case CallProcess => s.(stack := s.stack + [Process])
    case Continue => Continued(s)
    case HandlersDone(veto, m) => s.(stack := Below(s), log := if veto then s.log else s.log + [Forwarded(m)])
  }

  // ---------- what every step keeps ----------

  predicate LockInv(s: State) {
    && (s.owner == MainThread <==> s.processing)
    && (forall w :: 0 <= w < |s.workers| ==> (s.workers[w].Holding? || s.workers[w].Pushed? <==> s.owner == Worker(w)))
    && (s.owner.Worker? ==> s.owner.w < |s.workers|)
  }

  predicate MessagesInv(s: State) {
    && (forall w :: 0 <= w < |s.workers| && (s.workers[w].Waiting? || s.workers[w].Holding?) ==>
      !Bypasses(s.workers[w].m))
    && (forall i :: 0 <= i < |s.enqueued| ==> !Bypasses(s.enqueued[i]))
    && s.cleared <= |s.enqueued| && s.queue == s.enqueued[s.cleared..]
  }

  /** At most one drain is on the stack, exactly while the flag is set; nothing waits for the mutex meanwhile. */
  predicate StackInv(s: State) {
    && (s.processing ==> s.drainAt < |s.stack| && s.stack[s.drainAt].Draining? && s.stack[s.drainAt].i <= |s.queue|)
    && (forall k :: 0 <= k < |s.stack| ==> FrameOk(s, k))
  }

  predicate FrameOk(s: State, k: nat)
    requires k < |s.stack|
  {
    var f, last := s.stack[k], k == |s.stack| - 1;
    && (f.Draining? ==> s.processing && k == s.drainAt)
    && (f.Locking? ==> last && !s.processing)
    && (f.Process? ==> last)
    && (f.Entered? ==> last)
    && (f.Entered? && f.src == Queued ==> InDrain(s, k, f.m))
    && (f.Ready? && f.src == Queued ==> last && InDrain(s, k, f.m))
    && (s.processing && k == s.drainAt + 1 ==> OfDrain(f) && InDrain(s, k, f.m))
    && (f.Ready? && f.src == Direct ==> MarkOk(s, k, f.mark))
    && (f.RawSend? ==> MarkOk(s, k, f.mark))
  }

  /** A call that the drain makes. */
  predicate OfDrain(f: Frame) {
    ((f.Entered? || f.Ready?) && f.src == Queued) || f.Handlers?
  }

  /** The call right above the drain is for the message the drain has just come to. */
  predicate InDrain(s: State, k: nat, m: Msg) {
    && s.processing && k == s.drainAt + 1 && k < |s.stack| && s.stack[s.drainAt].Draining?
    && 1 <= s.stack[s.drainAt].i <= |s.queue| && m == s.queue[s.stack[s.drainAt].i - 1]
  }

  /**
   Without a mark the call is inside a drain or still has to take the mutex. With one, its own drain is at work
   above it or has presented what the mark counts.
   */
  predicate MarkOk(s: State, k: nat, mark: Mark)
    requires k < |s.stack|
  {
    match mark
    case NoMark =>
      if s.processing then k > s.drainAt
      else k + 2 == |s.stack| && (s.stack[k + 1].Process? || s.stack[k + 1].Locking?)
    case Mark(n) => if s.processing then k < s.drainAt && n <= s.cleared + |s.queue| else n <= s.cleared
  }

  /** The queued messages that have been presented to the handlers, in order. */
  function PresentedQueued(log: seq<Event>): seq<Msg> {
    if log == [] then []
    else
      var e := log[|log| - 1];
      PresentedQueued(log[..|log| - 1]) + if e.Presented? && e.src == Queued then [e.m] else []
  }

  /** A queued message that the drain has come to but that has not been presented yet. */
  predicate Pending(s: State) {
    s.stack != [] && (Top(s).Entered? || Top(s).Ready?) && Top(s).src == Queued
  }

  /** How many of the queued messages have been presented. */
  function Progress(s: State): int {
    if s.processing && s.drainAt < |s.stack| && s.stack[s.drainAt].Draining?
    then s.cleared + s.stack[s.drainAt].i - (if Pending(s) then 1 else 0)
    else s.cleared
  }

  predicate LogInv(s: State) {
    0 <= Progress(s) <= |s.enqueued| && PresentedQueued(s.log) == s.enqueued[..Progress(s)]
  }

  predicate Inv(s: State) {
    LockInv(s) && MessagesInv(s) && StackInv(s) && LogInv(s)
  }

  // ---------- the log ----------

  lemma LogForwarded(log: seq<Event>, m: Msg)
    ensures PresentedQueued(log + [Forwarded(m)]) == PresentedQueued(log)
  {
    assert (log + [Forwarded(m)])[..|log|] == log;
  }

  lemma LogPresented(log: seq<Event>, m: Msg, src: Source)
    ensures PresentedQueued(log + [Presented(m, src)]) == PresentedQueued(log) + if src == Queued then [m] else []
  {
    assert (log + [Presented(m, src)])[..|log|] == log;
  }

  // ---------- steps of the workers ----------

  lemma WorkerStepKeepsInv(s: State, a: Action)
    requires Inv(s) && Enabled(s, a) && (a.WorkerSends? || a.WorkerLocks? || a.WorkerPushes? || a.WorkerUnlocks?)
    ensures Inv(Apply(s, a))
  {
    hide PresentedQueued, FrameOk;
    var t := Apply(s, a);
    if a.WorkerSends? {
      LogForwarded(s.log, a.m);
    }
    FramesKept(s, t);
    if a.WorkerPushes? {
      assert s.workers[a.w].Holding? && s.owner == Worker(a.w);
      assert t.enqueued[t.cleared..] == s.enqueued[s.cleared..] + [s.workers[a.w].m];
      assert t.enqueued[..s.cleared] == s.enqueued[..s.cleared];
    }
  }

  lemma FramesKept(s: State, t: State)
    requires forall k :: 0 <= k < |s.stack| ==> FrameOk(s, k)
    requires t.stack == s.stack && t.processing == s.processing && t.drainAt == s.drainAt && t.cleared == s.cleared
    requires s.processing ==> t.queue == s.queue
    ensures forall k :: 0 <= k < |t.stack| ==> FrameOk(t, k)
  {
    forall k: nat | k < |t.stack| ensures FrameOk(t, k) {
      assert FrameOk(s, k);
    }
  }

  // ---------- steps of the main thread ----------

  /** Calls from the main thread's own code. */
  lemma CallKeepsInv(s: State, a: Action)
    requires Inv(s) && Enabled(s, a) && (a.CallHook? || a.CallRaw? || a.CallProcess?)
    ensures Inv(Apply(s, a))
  {
    hide PresentedQueued;
    var t := Apply(s, a);
    forall k: nat | k < |t.stack| ensures FrameOk(t, k) {
      if k < |s.stack| {
        assert FrameOk(s, k);
      }
    }
  }

  lemma HandlersDoneKeepsInv(s: State, a: Action)
    requires Inv(s) && Enabled(s, a) && a.HandlersDone?
    ensures Inv(Apply(s, a))
  {
    hide PresentedQueued;
    var t := Apply(s, a);
    LogForwarded(s.log, a.m);
    forall k: nat | k < |t.stack| ensures FrameOk(t, k) {
      assert FrameOk(s, k);
    }
    assert FrameOk(s, |s.stack| - 1);
    NothingPending(s, t);
  }

  /** Below a handler or a finished call, no queued message waits to be presented. */
  lemma NothingPending(s: State, t: State)
    requires Inv(s) && s.stack != [] && !Pending(s) && t.stack == Below(s)
    requires forall k :: 0 <= k < |t.stack| ==> FrameOk(t, k)
    requires t.processing == s.processing && t.drainAt == s.drainAt && t.queue == s.queue && !Top(s).Draining?
    ensures !Pending(t)
  {
    if t.stack != [] {
      assert FrameOk(s, |t.stack| - 1);
    }
  }

  /** A hook goes on: past rakhook::process, or into it. */
  lemma EnteredKeepsInv(s: State)
    requires Inv(s) && Enabled(s, Continue) && Top(s).Entered?
    ensures Inv(Continued(s))
  {
    hide PresentedQueued;
    var t, n := Continued(s), |s.stack| - 1;
    LogForwarded(s.log, Top(s).m);
    assert FrameOk(s, n);
    forall k: nat | k < |t.stack| ensures FrameOk(t, k) {
      if k < n {
        assert FrameOk(s, k);
      }
    }
    if Bypasses(Top(s).m) {
      QueuedNeverBypass(s);
      NothingPending(s, t);
    }
  }

  lemma QueuedNeverBypass(s: State)
    requires MessagesInv(s)
    ensures forall i :: 0 <= i < |s.queue| ==> !Bypasses(s.queue[i])
  {
    forall i | 0 <= i < |s.queue| ensures !Bypasses(s.queue[i]) {
      assert s.queue[i] == s.enqueued[s.cleared + i];
    }
  }

  /** The message is presented to the handlers. */
  lemma ReadyKeepsInv(s: State)
    requires Inv(s) && Enabled(s, Continue) && Top(s).Ready?
    ensures Inv(Continued(s))
  {
    hide PresentedQueued;
    var t, n := Continued(s), |s.stack| - 1;
    LogPresented(s.log, Top(s).m, Top(s).src);
    assert FrameOk(s, n);
    forall k: nat | k < |t.stack| ensures FrameOk(t, k) {
      if k < n {
        assert FrameOk(s, k);
      }
    }
    if Pending(s) {
      var p := Progress(s);
      assert s.queue[p - s.cleared] == s.enqueued[p];
      assert s.enqueued[..p] + [s.enqueued[p]] == s.enqueued[..p + 1];
    }
  }

  lemma RawSendKeepsInv(s: State)
    requires Inv(s) && Enabled(s, Continue) && Top(s).RawSend?
    ensures Inv(Continued(s))
  {
    hide PresentedQueued;
    var t := Continued(s);
    LogForwarded(s.log, Top(s).m);
    assert FrameOk(s, |s.stack| - 1);
    forall k: nat | k < |t.stack| ensures FrameOk(t, k) {
      assert FrameOk(s, k);
    }
    NothingPending(s, t);
  }

  lemma ProcessKeepsInv(s: State)
    requires Inv(s) && Enabled(s, Continue) && Top(s).Process?
    ensures Inv(Continued(s))
  {
    hide PresentedQueued;
    var t, n := Continued(s), |s.stack| - 1;
    assert FrameOk(s, n);
    forall k: nat | k < |t.stack| ensures FrameOk(t, k) {
      if k < n {
        assert FrameOk(s, k);
      }
    }
    if s.processing {
      NothingPending(s, t);
    }
  }

  lemma LockingKeepsInv(s: State)
    requires Inv(s) && Enabled(s, Continue) && Top(s).Locking?
    ensures Inv(Continued(s))
  {
    hide PresentedQueued;
    var t, n := Continued(s), |s.stack| - 1;
    assert FrameOk(s, n);
    forall k: nat | k < |t.stack| ensures FrameOk(t, k) {
      if k < n {
        assert FrameOk(s, k);
      }
    }
  }

  lemma DrainingKeepsInv(s: State)
    requires Inv(s) && Enabled(s, Continue) && Top(s).Draining?
    ensures Inv(Continued(s))
  {
    hide PresentedQueued;
    var t, n := Continued(s), |s.stack| - 1;
    assert FrameOk(s, n);
    forall k: nat | k < |t.stack| ensures FrameOk(t, k) {
      if k < n {
        assert FrameOk(s, k);
      }
    }
    QueuedNeverBypass(s);
    if n > 0 {
      assert FrameOk(s, n - 1);
    }
  }

  /** Every step of every thread keeps the invariant. */
  lemma StepKeepsInv(s: State, a: Action)
    requires Inv(s) && Enabled(s, a)
    ensures Inv(Apply(s, a))
  {
    hide Inv;
    match a
    case WorkerSends(_, _) => WorkerStepKeepsInv(s, a);
    case WorkerLocks(_) => WorkerStepKeepsInv(s, a);
    case WorkerPushes(_) => WorkerStepKeepsInv(s, a);
    case WorkerUnlocks(_) => WorkerStepKeepsInv(s, a);
    case CallHook(_) => CallKeepsInv(s, a);
    case CallRaw(_) => CallKeepsInv(s, a);
    case CallProcess => CallKeepsInv(s, a);
    case HandlersDone(_, _) => HandlersDoneKeepsInv(s, a);
    case Continue =>
      match Top(s)
      case Entered(_, _) => EnteredKeepsInv(s);
      case Ready(_, _, _) => ReadyKeepsInv(s);
      case RawSend(_, _) => RawSendKeepsInv(s);
      case Process => ProcessKeepsInv(s);
      case Locking => LockingKeepsInv(s);
      case Draining(_) => DrainingKeepsInv(s);
  }

  // ---------- runs ----------

  /** The states of a run from the start, with the action between each state and the next. */
  predicate IsRun(states: seq<State>, actions: seq<Action>) {
    && |states| == |actions| + 1 && Init(states[0])
    && forall i :: 0 <= i < |actions| ==> IsStep(states, actions, i)
  }

  predicate IsStep(states: seq<State>, actions: seq<Action>, i: nat)
    requires |states| == |actions| + 1 && i < |actions|
  {
    Enabled(states[i], actions[i]) && states[i + 1] == Apply(states[i], actions[i])
  }

  lemma {:induction false} RunKeepsInv(states: seq<State>, actions: seq<Action>, t: nat)
    requires IsRun(states, actions) && t < |states|
    ensures Inv(states[t])
  {
    hide Inv, Enabled, Apply, Init;
    if t == 0 {
      InitInv(states[0]);
    } else {
      RunKeepsInv(states, actions, t - 1);
      assert IsStep(states, actions, t - 1);
      StepKeepsInv(states[t - 1], actions[t - 1]);
    }
  }

  lemma InitInv(s: State)
    requires Init(s)
    ensures Inv(s)
  {
  }

  /**
   In every run, the queued messages presented so far are the first ones that were queued, in that order and each
   once; outside a drain they are all but those still in the queue.
   */
  lemma PresentedOnceInOrder(states: seq<State>, actions: seq<Action>, t: nat)
    requires IsRun(states, actions) && t < |states|
    ensures PresentedQueued(states[t].log) <= states[t].enqueued
    ensures !states[t].processing ==> PresentedQueued(states[t].log) + states[t].queue == states[t].enqueued
  {
    hide IsRun;
    RunKeepsInv(states, actions, t);
  }

  // ---------- what is queued before a send is presented before it ----------

  /** The history of queued messages only grows. */
  lemma {:induction false} EnqueuedGrows(states: seq<State>, actions: seq<Action>, i: nat, t: nat)
    requires IsRun(states, actions) && i <= t < |states|
    ensures states[i].enqueued <= states[t].enqueued
  {
    hide Init;
    if i >= t {
    } else {
      EnqueuedGrows(states, actions, i, t - 1);
      assert IsStep(states, actions, t - 1);
    }
  }

  predicate HasMark(f: Frame) {
    (f.Ready? || f.RawSend?) && f.mark.Mark?
  }

  /**
   Only the step that takes the mutex gives a mark, to the call right below it: how much had been queued by then. No
   other step changes a marked call.
   */
  lemma MarkOfStep(s: State, a: Action, k: nat)
    requires Inv(s) && Enabled(s, a) && k < |Apply(s, a).stack| && HasMark(Apply(s, a).stack[k])
    ensures k < |s.stack|
    ensures s.stack[k] != Apply(s, a).stack[k] ==>
              && a == Continue && Top(s).Locking? && k + 2 == |s.stack|
              && Apply(s, a).stack[k] == Marked(s.stack[k], |s.enqueued|)
  {
    if k < |s.stack| {
      assert FrameOk(s, k);
    }
  }

  /** In state i, process takes the mutex for the call at place k, which stays what it then is up to state t. */
  predicate TookMutexFor(states: seq<State>, actions: seq<Action>, i: nat, t: nat, k: nat)
    requires |states| == |actions| + 1
  {
    && i < t < |states|
    && actions[i] == Continue && |states[i].stack| == k + 2 && Top(states[i]).Locking?
    && forall j :: i < j <= t ==>
                     k < |states[j].stack| && states[j].stack[k] == Marked(states[i].stack[k], |states[i].enqueued|)
  }

  /** A marked call goes back to the step that took the mutex for it. */
  lemma {:induction false} MarkGoesBack(states: seq<State>, actions: seq<Action>, t: nat, k: nat) returns (i: nat)
    requires IsRun(states, actions) && t < |states| && k < |states[t].stack| && HasMark(states[t].stack[k])
    ensures TookMutexFor(states, actions, i, t, k)
    ensures HasMark(states[t].stack[k]) && states[t].stack[k].mark == Mark(|states[i].enqueued|)
  {
    hide Inv, Enabled, Apply;
    assert t > 0;
    assert IsStep(states, actions, t - 1);
    RunKeepsInv(states, actions, t - 1);
    MarkOfStep(states[t - 1], actions[t - 1], k);
    if states[t - 1].stack[k] == states[t].stack[k] {
      i := MarkGoesBack(states, actions, t - 1, k);
    } else {
      i := t - 1;
    }
  }

  /**
   In every run, when a message of the main thread is about to be presented, or sent raw, outside a drain, process has
   taken the mutex for this call earlier, and everything that had been queued by then has been presented.
   */
  lemma QueuedBeforeSendIsPresented(states: seq<State>, actions: seq<Action>, t: nat) returns (i: nat)
    requires IsRun(states, actions) && t < |states|
    requires var s := states[t];
             s.stack != [] && !s.processing && (Top(s).RawSend? || (Top(s).Ready? && Top(s).src == Direct))
    ensures TookMutexFor(states, actions, i, t, |states[t].stack| - 1)
    ensures states[i].enqueued <= PresentedQueued(states[t].log)
  {
    hide Inv, TookMutexFor;
    var s, k := states[t], |states[t].stack| - 1;
    RunKeepsInv(states, actions, t);
    CallIsMarked(s);
    i := MarkGoesBack(states, actions, t, k);
    Took(states, actions, i, t, k);
    EnqueuedGrows(states, actions, i, t);
  }

  /** Outside a drain a send in front of its presentation has a mark, and what the mark counts has been presented. */
  lemma CallIsMarked(s: State)
    requires Inv(s) && s.stack != [] && !s.processing && (Top(s).RawSend? || (Top(s).Ready? && Top(s).src == Direct))
    ensures HasMark(Top(s)) && Top(s).mark.n <= |s.enqueued| && s.enqueued[..Top(s).mark.n] <= PresentedQueued(s.log)
  {
    hide PresentedQueued;
    assert FrameOk(s, |s.stack| - 1);
    assert s.enqueued[..s.cleared][..Top(s).mark.n] == s.enqueued[..Top(s).mark.n];
  }

  lemma Took(states: seq<State>, actions: seq<Action>, i: nat, t: nat, k: nat)
    requires |states| == |actions| + 1 && TookMutexFor(states, actions, i, t, k)
    ensures i < t < |states|
  {
  }

  /** While a drain is at work, nothing changes the queue it walks through until it has come to the end. */
  lemma QueueFixedDuringDrain(s: State, a: Action)
    requires Inv(s) && Enabled(s, a) && s.processing
    ensures Apply(s, a).processing ==> Apply(s, a).queue == s.queue
    ensures !Apply(s, a).processing ==> a == Continue && Top(s) == Draining(|s.queue|)
  {
    if a.Continue? {
      assert FrameOk(s, |s.stack| - 1);
    }
  }

  /** Nothing inside a drain starts another one, or asks for the mutex that the main thread holds already. */
  lemma NeverDrainsTwice(states: seq<State>, actions: seq<Action>, t: nat, k: nat, m: nat)
    requires IsRun(states, actions) && t < |states| && k < |states[t].stack| && m < |states[t].stack|
    ensures states[t].stack[k].Draining? && states[t].stack[m].Draining? ==> k == m
    ensures states[t].stack[k].Draining? ==> !states[t].stack[m].Locking?
  {
    hide IsRun;
    RunKeepsInv(states, actions, t);
    assert FrameOk(states[t], k) && FrameOk(states[t], m);
  }

  /** The main thread in a call can always go on, unless a worker holds the mutex; and that worker can. */
  lemma NoDeadlock(states: seq<State>, actions: seq<Action>, t: nat) returns (a: Action)
    requires IsRun(states, actions) && t < |states| && states[t].stack != []
    ensures Enabled(states[t], a) && (a.Continue? || a.HandlersDone? || a.WorkerPushes? || a.WorkerUnlocks?)
  {
    hide IsRun;
    var s := states[t];
    RunKeepsInv(states, actions, t);
    if Top(s).Handlers? {
      a := HandlersDone(true, Top(s).m);
    } else if Top(s).Locking? && s.owner != Nobody {
      assert FrameOk(s, |s.stack| - 1);
      var w := s.owner.w;
      a := if s.workers[w].Holding? then WorkerPushes(w) else WorkerUnlocks(w);
    } else {
      a := Continue;
    }
  }
}
