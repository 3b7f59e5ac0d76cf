/**
 What becomes of the messages in a run of the send queue (cpp/game/rakhook.cpp): which go out, in which order, and what
 has been decided before what. Everything is read off the steps of the run, not off the history in its states.
 */
module SendHistory {
  import opened Wrappers
  import opened SendQueue

  // ---------- what goes out ----------

  /** The messages handed to the network client, in order. */
  function Sent(log: seq<Event>): seq<Msg> {
    if log == [] then []
    else
      var e := log[|log| - 1];
      Sent(log[..|log| - 1]) + if e.Forwarded? then [e.m] else []
  }

  lemma SentMore(log: seq<Event>, e: Event)
    ensures Sent(log + [e]) == Sent(log) + if e.Forwarded? then [e.m] else []
  {
    assert (log + [e])[..|log|] == log;
  }

  /** Such a packet goes out as it is; an empty remote call does not. */
  predicate IsEmptyPacket(m: Msg) {
    m.empty && !m.isRpc
  }

  /**
   What a step lets through: an empty packet, on any thread; a raw send that comes back from process; and what handlers
   give back that did not veto, which may be a replacement.
   */
  function LetThrough(s: State, a: Action): seq<Msg> {
    match a
    case WorkerSends(_, m) => if IsEmptyPacket(m) then [m] else []
    case HandlersDone(veto, m) => if veto then [] else [m]
    case Continue => if s.stack == [] then [] else LetThroughBy(s.stack[|s.stack| - 1])
    case _ => []
  }

  function LetThroughBy(f: Frame): seq<Msg> {
    match f
    case Entered(m, _) => if IsEmptyPacket(m) then [m] else []
    case RawSend(m, _) => [m]
    case _ => []
  }

  /** What the first t steps of a run let through. */
  function AllLetThrough(states: seq<State>, actions: seq<Action>, t: nat): seq<Msg>
    requires t <= |actions| < |states|
  {
    if t == 0 then [] else AllLetThrough(states, actions, t - 1) + LetThrough(states[t - 1], actions[t - 1])
  }

  lemma SentByStep(s: State, a: Action)
    requires Enabled(s, a)
    ensures Sent(Apply(s, a).log) == Sent(s.log) + LetThrough(s, a)
  {
    hide Sent;
    forall m ensures Sent(s.log + [Forwarded(m)]) == Sent(s.log) + [m] {
      SentMore(s.log, Forwarded(m));
    }
    forall m, src ensures Sent(s.log + [Presented(m, src)]) == Sent(s.log) {
      SentMore(s.log, Presented(m, src));
    }
    assert Sent(s.log) + [] == Sent(s.log);
  }

  /** In every run, what has gone out is exactly what was let through, in that order and once each. */
  lemma {:induction false} SentIsLetThrough(states: seq<State>, actions: seq<Action>, t: nat)
    requires IsRun(states, actions) && t < |states|
    ensures Sent(states[t].log) == AllLetThrough(states, actions, t)
  {
    hide Apply, Enabled, LetThrough;
    if t == 0 {
    } else {
      SentIsLetThrough(states, actions, t - 1);
      assert IsStep(states, actions, t - 1);
      SentByStep(states[t - 1], actions[t - 1]);
    }
  }

  // ---------- what is queued ----------

  /** What the first t steps queued: the messages of the workers that held the mutex, in that order. */
  function AllPushed(states: seq<State>, actions: seq<Action>, t: nat): seq<Msg>
    requires t <= |actions| < |states|
  {
    if t == 0 then []
    else AllPushed(states, actions, t - 1) + PushedBy(states[t - 1], actions[t - 1])
  }

  function PushedBy(s: State, a: Action): seq<Msg> {
    if a.WorkerPushes? && a.w < |s.workers| && s.workers[a.w].Holding? then [s.workers[a.w].m] else []
  }

  lemma {:induction false} EnqueuedIsPushed(states: seq<State>, actions: seq<Action>, t: nat)
    requires IsRun(states, actions) && t < |states|
    ensures states[t].enqueued == AllPushed(states, actions, t)
  {
    hide Apply, Enabled, PushedBy;
    if t == 0 {
    } else {
      EnqueuedIsPushed(states, actions, t - 1);
      assert IsStep(states, actions, t - 1);
      EnqueuedByStep(states[t - 1], actions[t - 1]);
    }
  }

  lemma EnqueuedByStep(s: State, a: Action)
    requires Enabled(s, a)
    ensures Apply(s, a).enqueued == s.enqueued + PushedBy(s, a)
  {
  }

  /** Worker w has taken up m and not yet queued it. */
  predicate Carries(s: State, w: nat, m: Msg) {
    w < |s.workers| && (s.workers[w] == Waiting(m) || s.workers[w] == Holding(m))
  }

  /** A worker keeps the message it was given until it queues it. */
  lemma {:induction false} WorkerRunsItsCourse(states: seq<State>, actions: seq<Action>, i: nat, t: nat)
    returns (j: nat)
    requires IsRun(states, actions) && i < t < |states|
    requires actions[i].WorkerSends? && !Bypasses(actions[i].m)
    ensures i < j <= t && forall x :: i < x <= j ==> Carries(states[x], actions[i].w, actions[i].m)
    ensures j < t ==> actions[j] == WorkerPushes(actions[i].w) && PushedBy(states[j], actions[j]) == [actions[i].m]
  {
    assert IsStep(states, actions, t - 1);
    if t == i + 1 {
      j := t;
    } else {
      j := WorkerRunsItsCourse(states, actions, i, t - 1);
      if j == t - 1 && actions[j] != WorkerPushes(actions[i].w) {
        j := t;
      }
    }
  }

  // ---------- the course of a call on the main thread ----------

  /** A call of the hook for m from the main thread's own code, at any stage. */
  predicate OfCall(f: Frame, m: Msg) {
    ((f.Entered? || f.Ready?) && f.src == Direct && f.m == m) || f == Handlers(m)
  }

  predicate CallAt(s: State, k: nat, m: Msg) {
    k < |s.stack| && OfCall(s.stack[k], m)
  }

  /** Handlers are at work on it. */
  predicate HandledAt(s: State, k: nat, m: Msg) {
    k < |s.stack| && s.stack[k] == Handlers(m)
  }

  /** The handlers have decided on the call at place k, and it is over. */
  predicate EndsCall(s: State, a: Action, k: nat, m: Msg) {
    a.HandlersDone? && |s.stack| == k + 1 && s.stack[k] == Handlers(m)
  }

  lemma CallStep(s: State, a: Action, k: nat, m: Msg)
    requires Inv(s) && Enabled(s, a) && CallAt(s, k, m) && !Bypasses(m)
    ensures CallAt(Apply(s, a), k, m) || EndsCall(s, a, k, m)
    ensures EndsCall(s, a, k, m) ==>
              |Apply(s, a).stack| == k && Sent(Apply(s, a).log) == Sent(s.log) + if a.veto then [] else [a.m]
    ensures s.stack[k] != Handlers(m) && CallAt(Apply(s, a), k, m) && Apply(s, a).stack[k] == Handlers(m) ==>
              a == Continue && Apply(s, a).log == s.log + [Presented(m, Direct)]
  {
    hide Sent;
    SentByStep(s, a);
    assert FrameOk(s, k);
  }

  /**
   A call of the hook with a message that is not empty stays on the stack until handlers have decided on it: then it
   goes out, or its replacement, or nothing does.
   */
  lemma {:induction false} CallRunsItsCourse(states: seq<State>, actions: seq<Action>, i: nat, t: nat) returns (j: nat)
    requires IsRun(states, actions) && i < t < |states| && actions[i].CallHook? && !Bypasses(actions[i].m)
    ensures var k, m := |states[i].stack|, actions[i].m;
            && i < j <= t && states[i + 1].stack == states[i].stack + [Entered(m, Direct)]
            && (forall x :: i < x <= j ==> CallAt(states[x], k, m))
            && (j < t ==>
                  && EndsCall(states[j], actions[j], k, m) && |states[j + 1].stack| == k
                  && Sent(states[j + 1].log) == Sent(states[j].log) + if actions[j].veto then [] else [actions[j].m])
  {
    hide Inv, Sent;
    var k, m := |states[i].stack|, actions[i].m;
    assert IsStep(states, actions, t - 1);
    if t == i + 1 {
      j := t;
    } else {
      j := CallRunsItsCourse(states, actions, i, t - 1);
      if j == t - 1 {
        RunKeepsInv(states, actions, j);
        CallStep(states[j], actions[j], k, m);
        if CallAt(states[t], k, m) {
          j := t;
        }
      }
    }
  }

  /** Before the handlers decide on a call, its message has been presented to them. */
  lemma {:induction false} DecidedIsPresented(states: seq<State>, actions: seq<Action>, i: nat, j: nat, k: nat, m: Msg)
    returns (p: nat)
    requires IsRun(states, actions) && i < j < |states| && !Bypasses(m)
    requires (forall x :: i < x <= j ==> CallAt(states[x], k, m))
    requires !HandledAt(states[i + 1], k, m) && HandledAt(states[j], k, m)
    ensures i < p < j && states[p + 1].log == states[p].log + [Presented(m, Direct)]
    ensures forall x :: p < x <= j ==> HandledAt(states[x], k, m)
  {
    hide Inv, Apply, Enabled;
    assert IsStep(states, actions, j - 1);
    assert CallAt(states[j - 1], k, m) && CallAt(states[j], k, m);
    RunKeepsInv(states, actions, j - 1);
    CallStep(states[j - 1], actions[j - 1], k, m);
    if HandledAt(states[j - 1], k, m) {
      p := DecidedIsPresented(states, actions, i, j - 1, k, m);
    } else {
      p := j - 1;
    }
  }

  /** A raw send stays on the stack until it goes out. */
  lemma {:induction false} RawRunsItsCourse(states: seq<State>, actions: seq<Action>, i: nat, t: nat) returns (j: nat)
    requires IsRun(states, actions) && i < t < |states| && actions[i].CallRaw?
    ensures var k, m := |states[i].stack|, actions[i].m;
            && i < j <= t && (forall x :: i < x <= j ==> RawAt(states[x], k, m))
            && (j < t ==> actions[j] == Continue && |states[j].stack| == k + 1 && |states[j + 1].stack| == k
                          && Sent(states[j + 1].log) == Sent(states[j].log) + [m])
  {
    hide Inv, Sent;
    var k, m := |states[i].stack|, actions[i].m;
    assert IsStep(states, actions, t - 1);
    if t == i + 1 {
      j := t;
    } else {
      j := RawRunsItsCourse(states, actions, i, t - 1);
      if j == t - 1 {
        RunKeepsInv(states, actions, j);
        SentByStep(states[j], actions[j]);
        RawStep(states[j], actions[j], k, m);
        if RawAt(states[t], k, m) {
          j := t;
        }
      }
    }
  }

  predicate RawAt(s: State, k: nat, m: Msg) {
    k < |s.stack| && s.stack[k].RawSend? && s.stack[k].m == m
  }

  lemma RawStep(s: State, a: Action, k: nat, m: Msg)
    requires Inv(s) && Enabled(s, a) && RawAt(s, k, m)
    ensures RawAt(Apply(s, a), k, m) ||
            (a == Continue && |s.stack| == k + 1 && |Apply(s, a).stack| == k && LetThrough(s, a) == [m])
  {
    assert FrameOk(s, k);
  }

  // ---------- vetoed messages ----------

  /** Some step hands m to the client without asking handlers, or handlers give it back. */
  predicate LetOut(a: Action, m: Msg) {
    || a == CallRaw(m) || a == HandlersDone(false, m)
    || (IsEmptyPacket(m) && (a == CallHook(m) || (a.WorkerSends? && a.m == m)))
  }

  predicate SomeLetOut(actions: seq<Action>, t: nat, m: Msg)
    requires t <= |actions|
  {
    exists i :: 0 <= i < t && LetOut(actions[i], m)
  }

  /** A call for m that handlers are not asked about. */
  predicate Unasked(f: Frame, m: Msg) {
    (f.RawSend? && f.m == m) || (f.Entered? && f.m == m && Bypasses(m))
  }

  lemma {:induction false} UnaskedWasCalled(states: seq<State>, actions: seq<Action>, t: nat, k: nat, m: Msg)
    requires IsRun(states, actions) && t < |states| && k < |states[t].stack| && Unasked(states[t].stack[k], m)
    ensures SomeLetOut(actions, t, m)
  {
    hide Inv, Enabled, Apply, Unasked, LetOut;
    assert t > 0;
    assert IsStep(states, actions, t - 1);
    RunKeepsInv(states, actions, t - 1);
    UnaskedWasThere(states[t - 1], actions[t - 1], k, m);
    if !LetOut(actions[t - 1], m) {
      UnaskedWasCalled(states, actions, t - 1, k, m);
    }
  }

  lemma UnaskedWasThere(s: State, a: Action, k: nat, m: Msg)
    requires Inv(s) && Enabled(s, a) && k < |Apply(s, a).stack| && Unasked(Apply(s, a).stack[k], m)
    ensures LetOut(a, m) || (k < |s.stack| && Unasked(s.stack[k], m))
  {
    QueuedNeverBypass(s);
  }

  /**
   What goes out was sent raw, or was empty, or was given back by handlers: a message that handlers veto, or replace,
   and that comes from nowhere else, never goes out.
   */
  lemma {:induction false} VetoedNeverGoesOut(states: seq<State>, actions: seq<Action>, t: nat, m: Msg)
    requires IsRun(states, actions) && t < |states| && !SomeLetOut(actions, t, m)
    ensures m !in Sent(states[t].log)
  {
    hide Inv, Enabled, Apply, Unasked, LetOut, Sent;
    if t == 0 {
      SentIsLetThrough(states, actions, 0);
    } else {
      VetoedNeverGoesOut(states, actions, t - 1, m);
      assert IsStep(states, actions, t - 1);
      SentByStep(states[t - 1], actions[t - 1]);
      NotLetThrough(states, actions, t - 1, m);
    }
  }

  lemma NotLetThrough(states: seq<State>, actions: seq<Action>, i: nat, m: Msg)
    requires IsRun(states, actions) && i < |actions| && !SomeLetOut(actions, i + 1, m)
    ensures m !in LetThrough(states[i], actions[i])
  {
    hide Inv, Enabled, Apply;
    var s := states[i];
    assert !LetOut(actions[i], m);
    if s.stack != [] && Unasked(Top(s), m) {
      UnaskedWasCalled(states, actions, i, |s.stack| - 1, m);
    }
  }

  // ---------- what handlers decide on queued messages ----------

  /** A queued message that handlers have decided on, and what goes out for it. */
  datatype Decision = Decision(m: Msg, out: Option<Msg>)

  /** What a step decides: handlers come back to the drain right below them. */
  function Decides(s: State, a: Action): seq<Decision> {
    if a.HandlersDone? && |s.stack| >= 2 && Top(s).Handlers? && s.stack[|s.stack| - 2].Draining?
    then [Decision(Top(s).m, if a.veto then None else Some(a.m))]
    else []
  }

  function Decisions(states: seq<State>, actions: seq<Action>, t: nat): seq<Decision>
    requires t <= |actions| < |states|
  {
    if t == 0 then [] else Decisions(states, actions, t - 1) + Decides(states[t - 1], actions[t - 1])
  }

  function Messages(ds: seq<Decision>): (r: seq<Msg>)
    ensures |r| == |ds| && forall i :: 0 <= i < |r| ==> r[i] == ds[i].m
  {
    seq(|ds|, i requires 0 <= i < |ds| => ds[i].m)
  }

  /** What goes out for them. */
  function Outs(ds: seq<Decision>): seq<Msg> {
    if ds == [] then [] else Outs(ds[..|ds| - 1]) + OutOf(ds[|ds| - 1])
  }

  function OutOf(d: Decision): seq<Msg> {
    if d.out.Some? then [d.out.value] else []
  }

  /** How many of the queued messages have been decided on. */
  function Decided(s: State): int {
    if s.processing && s.drainAt < |s.stack| && s.stack[s.drainAt].Draining?
    then s.cleared + s.stack[s.drainAt].i - (if |s.stack| > s.drainAt + 1 then 1 else 0)
    else s.cleared
  }

  lemma DecidedByStep(s: State, a: Action)
    requires Inv(s) && Enabled(s, a)
    ensures var t := Apply(s, a);
            && 0 <= Decided(s) <= |s.enqueued| && 0 <= Decided(t) <= |t.enqueued|
            && t.enqueued[..Decided(t)] == s.enqueued[..Decided(s)] + Messages(Decides(s, a))
  {
    hide PresentedQueued;
    var t := Apply(s, a);
    DecidedInRange(s);
    if a.HandlersDone? {
      DecidedByHandlers(s, a);
    } else if a.Continue? {
      DecidedByContinue(s);
    } else {
      assert t.enqueued[..Decided(s)] == s.enqueued[..Decided(s)];
    }
  }

  lemma DecidedByContinue(s: State)
    requires Inv(s) && Enabled(s, Continue)
    ensures Decided(Continued(s)) == Decided(s)
  {
    hide PresentedQueued;
    assert FrameOk(s, |s.stack| - 1);
  }

  lemma DecidedByHandlers(s: State, a: Action)
    requires Inv(s) && Enabled(s, a) && a.HandlersDone? && 0 <= Decided(s) <= |s.enqueued|
    ensures var t := Apply(s, a);
            && 0 <= Decided(t) <= |t.enqueued|
            && t.enqueued[..Decided(t)] == s.enqueued[..Decided(s)] + Messages(Decides(s, a))
  {
    hide PresentedQueued;
    var n := |s.stack|;
    assert FrameOk(s, n - 1);
    if n > 1 {
      assert FrameOk(s, n - 2);
    }
    if s.processing && n == s.drainAt + 2 {
      var d := Decided(s);
      assert s.enqueued[d] == s.queue[d - s.cleared] == Top(s).m;
      assert s.enqueued[..d + 1] == s.enqueued[..d] + [s.enqueued[d]];
    }
  }

  lemma DecidedInRange(s: State)
    requires Inv(s)
    ensures 0 <= Decided(s) <= |s.enqueued|
  {
    hide PresentedQueued;
    if s.processing && |s.stack| > s.drainAt + 1 {
      assert FrameOk(s, s.drainAt + 1);
    }
  }

  /**
   In every run, handlers decide on the queued messages in the order in which they were queued, once on each; and
   whenever the drain turns to the next message, or none is at work, they have decided on all that have been presented.
   */
  lemma {:induction false} DecidedInOrder(states: seq<State>, actions: seq<Action>, t: nat)
    requires IsRun(states, actions) && t < |states|
    ensures Messages(Decisions(states, actions, t)) <= states[t].enqueued
    ensures |Decisions(states, actions, t)| == Decided(states[t])
    ensures BetweenMessages(states[t]) ==>
              Messages(Decisions(states, actions, t)) == PresentedQueued(states[t].log)
  {
    hide Inv, Apply, Enabled, Decided, Decides, PresentedQueued;
    RunKeepsInv(states, actions, t);
    DecidedInRange(states[t]);
    if t == 0 {
      NothingDecided(states[0]);
    } else {
      DecidedInOrder(states, actions, t - 1);
      assert IsStep(states, actions, t - 1);
      RunKeepsInv(states, actions, t - 1);
      DecidedByStep(states[t - 1], actions[t - 1]);
      var ds, more := Decisions(states, actions, t - 1), Decides(states[t - 1], actions[t - 1]);
      assert Messages(ds + more) == Messages(ds) + Messages(more);
    }
    if BetweenMessages(states[t]) {
      AllPresentedDecided(states[t]);
    }
  }

  /** No drain is at work, or it is about to turn to the next message. */
  predicate BetweenMessages(s: State) {
    s.processing ==> s.stack != [] && Top(s).Draining?
  }

  lemma NothingDecided(s: State)
    requires Init(s)
    ensures Decided(s) == 0
  {
  }

  lemma AllPresentedDecided(s: State)
    requires Inv(s) && BetweenMessages(s)
    ensures 0 <= Decided(s) <= |s.enqueued| && PresentedQueued(s.log) == s.enqueued[..Decided(s)]
  {
    hide PresentedQueued;
    if s.processing {
      assert FrameOk(s, |s.stack| - 1);
    }
  }

  // ---------- what goes out before what ----------

  /** All of a, in this order, among the elements of b. */
  predicate Among(a: seq<Msg>, b: seq<Msg>) {
    if a == [] then true
    else if b == [] then false
    else (a[|a| - 1] == b[|b| - 1] && Among(a[..|a| - 1], b[..|b| - 1])) || Among(a, b[..|b| - 1])
  }

  lemma {:induction false} AmongMore(a: seq<Msg>, b: seq<Msg>, c: seq<Msg>)
    requires Among(a, b)
    ensures Among(a, b + c)
    decreases |c|
  {
    if c == [] {
      assert b + c == b;
    } else {
      AmongMore(a, b, c[..|c| - 1]);
      assert (b + c)[..|b + c| - 1] == b + c[..|c| - 1];
    }
  }

  lemma AmongBoth(a: seq<Msg>, b: seq<Msg>, x: Msg)
    requires Among(a, b)
    ensures Among(a + [x], b + [x])
  {
    assert (a + [x])[..|a|] == a && (b + [x])[..|b|] == b;
  }

  lemma {:induction false} AmongInit(a: seq<Msg>, b: seq<Msg>)
    requires a != [] && Among(a, b)
    ensures Among(a[..|a| - 1], b)
    decreases |b|
  {
    var r := b[..|b| - 1];
    assert b == r + [b[|b| - 1]];
    if a[|a| - 1] == b[|b| - 1] && Among(a[..|a| - 1], r) {
    } else {
      AmongInit(a, r);
    }
    AmongMore(a[..|a| - 1], r, [b[|b| - 1]]);
  }

  lemma {:induction false} OutsOfFirst(ds: seq<Decision>, n: nat, b: seq<Msg>)
    requires n <= |ds| && Among(Outs(ds), b)
    ensures Among(Outs(ds[..n]), b)
    decreases |ds|
  {
    if n == |ds| {
      assert ds[..n] == ds;
    } else {
      var r, d := ds[..|ds| - 1], ds[|ds| - 1];
      if d.out.Some? {
        AmongInit(Outs(ds), b);
        assert Outs(ds)[..|Outs(ds)| - 1] == Outs(r);
      } else {
        assert Outs(ds) == Outs(r);
      }
      OutsOfFirst(r, n, b);
      assert r[..n] == ds[..n];
    }
  }

  lemma OutsMore(ds: seq<Decision>, d: Decision)
    ensures Outs(ds + [d]) == Outs(ds) + OutOf(d)
  {
    assert (ds + [d])[..|ds|] == ds;
  }

  lemma DecidesOne(s: State, a: Action)
    requires Enabled(s, a)
    ensures |Decides(s, a)| <= 1
    ensures Decides(s, a) != [] ==> OutOf(Decides(s, a)[0]) == LetThrough(s, a) && |LetThrough(s, a)| <= 1
  {
  }

  lemma AmongStep(ds: seq<Decision>, more: seq<Decision>, sent: seq<Msg>, through: seq<Msg>)
    requires Among(Outs(ds), sent) && |more| <= 1
    requires more != [] ==> OutOf(more[0]) == through && |through| <= 1
    ensures Among(Outs(ds + more), sent + through)
  {
    hide Among, Outs;
    if more == [] {
      assert ds + more == ds;
      AmongMore(Outs(ds), sent, through);
    } else {
      assert more == [more[0]];
      OutsMore(ds, more[0]);
      if through == [] {
        assert Outs(ds) + [] == Outs(ds) && sent + [] == sent;
      } else {
        assert through == [through[0]];
        AmongBoth(Outs(ds), sent, through[0]);
      }
    }
  }

  /** What handlers give back for queued messages goes out in the order of the queue. */
  lemma {:induction false} OutsAreSent(states: seq<State>, actions: seq<Action>, t: nat)
    requires IsRun(states, actions) && t < |states|
    ensures Among(Outs(Decisions(states, actions, t)), Sent(states[t].log))
  {
    hide Inv, Apply, Enabled, Sent, Decides, LetThrough;
    if t == 0 {
    } else {
      OutsAreSent(states, actions, t - 1);
      var s, a := states[t - 1], actions[t - 1];
      assert IsStep(states, actions, t - 1);
      SentByStep(s, a);
      DecidesOne(s, a);
      AmongStep(Decisions(states, actions, t - 1), Decides(s, a), Sent(s.log), LetThrough(s, a));
    }
  }

  /**
   In every run, when a message of the main thread is about to be presented, or sent raw, outside a drain, process has
   taken the mutex for this call earlier; handlers have decided on all that had been queued by then, and what they let
   through of it has gone out.
   */
  lemma QueuedIsDecidedBefore(states: seq<State>, actions: seq<Action>, t: nat) returns (i: nat, n: nat)
    requires IsRun(states, actions) && t < |states|
    requires var s := states[t];
             s.stack != [] && !s.processing && (Top(s).RawSend? || (Top(s).Ready? && Top(s).src == Direct))
    ensures TookMutexFor(states, actions, i, t, |states[t].stack| - 1) && i < t
    ensures var ds := Decisions(states, actions, t);
            && n <= |ds| && Messages(ds[..n]) == states[i].enqueued
            && Among(Outs(ds[..n]), Sent(states[t].log))
  {
    hide Inv, Apply, Enabled, Sent, TookMutexFor, Decided, PresentedQueued;
    i := QueuedBeforeSendIsPresented(states, actions, t);
    Took(states, actions, i, t, |states[t].stack| - 1);
    DecidedInOrder(states, actions, t);
    n := |states[i].enqueued|;
    var ds := Decisions(states, actions, t);
    assert Messages(ds[..n]) == Messages(ds)[..n];
    OutsAreSent(states, actions, t);
    OutsOfFirst(ds, n, Sent(states[t].log));
  }

  /**
   A raw send outside a drain goes out behind everything that was let through of what had been queued when the mutex
   was taken for it.
   */
  lemma RawGoesOutBehind(states: seq<State>, actions: seq<Action>, t: nat) returns (i: nat, n: nat)
    requires IsRun(states, actions) && t < |actions| && actions[t] == Continue
    requires states[t].stack != [] && !states[t].processing && Top(states[t]).RawSend?
    ensures TookMutexFor(states, actions, i, t, |states[t].stack| - 1) && i < t
    ensures var ds := Decisions(states, actions, t);
            && n <= |ds| && Messages(ds[..n]) == states[i].enqueued
            && Among(Outs(ds[..n]), Sent(states[t].log))
            && Sent(states[t + 1].log) == Sent(states[t].log) + [Top(states[t]).m]
  {
    hide Inv, Apply, Enabled, Sent, TookMutexFor, Decisions, Among;
    i, n := QueuedIsDecidedBefore(states, actions, t);
    assert IsStep(states, actions, t);
    SentByStep(states[t], actions[t]);
  }
}
