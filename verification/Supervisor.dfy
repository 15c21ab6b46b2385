/**
 The supervisor of one app in the shared Deno router, `run` in `proxy/runtimes.py`, as a step
 system. Every call of `run` removes the old socket, spawns a child and polls for its socket;
 a callback on the child's exit sets a timer that calls `run` again. A step is the code
 between two awaits, or the death of a child.
 */
module Supervisor {
  import opened Options
  import PrimeField

  /** A child before its environment is written, after that, or given up when the writing failed. */
  datatype Phase = Starting | Watched | Abandoned

  /** exited is the flag that the callback sets and the polling loop reads. */
  datatype Child = Child(started: nat, alive: bool, exited: bool, polling: bool, phase: Phase)

  /** A run of a child, as the exit callback saw it, and the delay it chose. */
  datatype Exit = Exit(lifetime: int, delay: nat)

  datatype App = App(
    now: nat,
    removing: nat,                  // calls of run that wait for the removal of the socket
    children: seq<Child>,           // every child spawned so far
    timers: multiset<nat>,          // when the outstanding respawn timers are due
    client: Option<nat>,            // the child whose HTTP client is installed
    failures: nat,
    stopping: bool,
    lost: bool,                     // a call of run has failed
    over: bool,                     // the requests are drained and the router has exited
    exits: seq<Exit>)               // history

  const STARTUP_MS: int := 120000
  const STABLE_MS: int := 60000
  const MAX_DELAY: nat := 60000

  /** Math.min(60000, 1000 * 2 ** n) */
  function Delay(n: nat): nat {
    var delay := 1000 * PrimeField.Pow(2, n);
    if 0 <= delay < MAX_DELAY then delay else MAX_DELAY
  }

  const STARTED: App := App(0, 1, [], multiset{}, None, 0, false, false, false, [])

  function Spawn(s: App): App
    requires s.removing > 0
  {
    s.(removing := s.removing - 1, children := s.children + [Child(s.now, true, false, false, Starting)])
  }

  /** The environment is written: the callback is set, and polling begins. */
  function Watch(s: App, c: nat): App
    requires c < |s.children|
  {
    s.(children := s.children[c := s.children[c].(phase := Watched, polling := true)])
  }

  /**
   The removal of the old socket fails, or the writing to the child: the call of run is over.
   On the first start the failure is caught and logged, later it ends the router.
   */
  function FailRemoval(s: App): App
    requires s.removing > 0
  {
    s.(removing := s.removing - 1, lost := true)
  }

  function FailWriting(s: App, c: nat): App
    requires c < |s.children|
  {
    s.(children := s.children[c := s.children[c].(phase := Abandoned)], lost := true)
  }

  /** The callback on the status of child c. */
  function Observe(s: App, c: nat): App
    requires c < |s.children|
  {
    var child := s.children[c];
    var t := s.(children := s.children[c := child.(exited := true)], client := None);
    if s.stopping then t
    else
      var failures := if s.now - child.started > STABLE_MS then 0 else s.failures;
      var delay := Delay(failures);
      t.(failures := failures + 1, timers := s.timers + multiset{s.now + delay},
         exits := s.exits + [Exit(s.now - child.started, delay)])
  }

  /** One turn of the polling loop for child c, after lstat found the socket or did not. */
  function Poll(s: App, c: nat, found: bool): App
    requires c < |s.children|
  {
    var child := s.children[c];
    if found then
      if child.exited then s.(children := s.children[c := child.(polling := false)])
      else s.(children := s.children[c := child.(polling := false)], client := Some(c))
    else if s.now - child.started > STARTUP_MS then
      s.(children := s.children[c := child.(polling := false, alive := false)])
    else s.(children := s.children[c := child.(polling := !child.exited)])
  }

  function Respawn(s: App, due: nat): App {
    s.(timers := s.timers - multiset{due}, removing := s.removing + 1)
  }

  datatype Event =
    | Spawns
    | Watches(c: nat)
    | FailsRemoval
    | FailsWriting(c: nat)
    | Dies(c: nat)
    | Observes(c: nat)
    | Polls(c: nat, found: bool)
    | Fires(due: nat)
    | Stops
    | Exits
    | Ticks(delay: nat)

  predicate Enabled(s: App, e: Event) {
    && !s.over
    && match e
       case Spawns => s.removing > 0
       case Watches(c) => c < |s.children| && s.children[c].phase.Starting?
       case FailsRemoval => s.removing > 0
       case FailsWriting(c) => c < |s.children| && s.children[c].phase.Starting?
       case Dies(c) => c < |s.children| && s.children[c].alive
       case Observes(c) =>
         c < |s.children| && s.children[c].phase.Watched? && !s.children[c].alive && !s.children[c].exited
       case Polls(c, _) => c < |s.children| && s.children[c].polling
       case Fires(due) => due in s.timers && due <= s.now
       case Exits => s.stopping
       case _ => true
  }

  function Apply(s: App, e: Event): App
    requires Enabled(s, e)
  {
    match e
    case Spawns => Spawn(s)
    case Watches(c) => Watch(s, c)
    case FailsRemoval => FailRemoval(s)
    case FailsWriting(c) => FailWriting(s, c)
    case Dies(c) => s.(children := s.children[c := s.children[c].(alive := false)])
    case Observes(c) => Observe(s, c)
    case Polls(c, found) => Poll(s, c, found)
    case Fires(due) => Respawn(s, due)
    case Stops => s.(stopping := true)
    case Exits => s.(over := true)
    case Ticks(delay) => s.(now := s.now + delay)
  }

  predicate Runs(s: App, es: seq<Event>, t: App)
    decreases |es|
  {
    if es == [] then s == t
    else Enabled(s, es[0]) && Runs(Apply(s, es[0]), es[1..], t)
  }

  // ---------------------------------------------------------------------------
  // One child at a time

  predicate Gone(child: Child) {
    child.exited && !child.alive
  }

  /** Every child but the last has been seen to exit. */
  predicate OthersGone(children: seq<Child>) {
    forall c :: 0 <= c < |children| - 1 ==> Gone(children[c])
  }

  predicate LastRuns(children: seq<Child>) {
    children != [] && !children[|children| - 1].exited
  }

  /** A call of run before its spawn, a child not seen to exit, a timer: at most one of the three. */
  predicate OneActivity(s: App) {
    && (!LastRuns(s.children) && s.children != [] ==> Gone(s.children[|s.children| - 1]))
    && s.removing + (if LastRuns(s.children) then 1 else 0) + |s.timers| <= 1
    && (!s.stopping && !s.lost ==> s.removing + (if LastRuns(s.children) then 1 else 0) + |s.timers| == 1)
  }

  /** A call of run fails once, and after that the app is left alone; no child is given up otherwise. */
  predicate LostKnown(s: App) {
    && (s.lost ==> s.removing == 0 && |s.timers| == 0)
    && (LastRuns(s.children) ==> (s.children[|s.children| - 1].phase.Abandoned? <==> s.lost))
    && (forall child :: child in s.children && child.exited ==> child.phase.Watched?)
  }

  predicate ClientRuns(s: App) {
    s.client.Some? ==> s.client.value + 1 == |s.children| && LastRuns(s.children)
  }

  predicate Inv(s: App) {
    OthersGone(s.children) && OneActivity(s) && LostKnown(s) && ClientRuns(s)
  }

  lemma RemoveOne(m: multiset<nat>, x: nat)
    requires x in m
    ensures |m - multiset{x}| == |m| - 1
  {
    assert m == (m - multiset{x}) + multiset{x};
  }

  lemma StepInv(s: App, e: Event)
    requires Inv(s) && Enabled(s, e)
    ensures Inv(Apply(s, e))
  {
    match e
    case Spawns => SpawnInv(s);
    case Watches(c) => WatchInv(s, c);
    case FailsRemoval =>
    case FailsWriting(c) => WritingInv(s, c);
    case Observes(c) => ObserveInv(s, c);
    case Polls(c, found) => PollInv(s, c, found);
    case Fires(due) => FireInv(s, due);
    case Dies(c) => MarkInv(s, c, s.children[c].(alive := false));
    case _ =>
  }

  lemma FireInv(s: App, due: nat)
    requires Inv(s) && due in s.timers
    ensures Inv(Respawn(s, due))
  {
    RemoveOne(s.timers, due);
  }

  lemma SpawnInv(s: App)
    requires Inv(s) && s.removing > 0
    ensures Inv(Spawn(s))
  {
    assert !LastRuns(s.children) && s.client == None;
    var t := Spawn(s);
    forall c | 0 <= c < |t.children| - 1 ensures Gone(t.children[c]) {
      assert Gone(s.children[c]) && t.children[c] == s.children[c];
    }
  }

  /** A change of a child that leaves its exited flag and its phase alone, and cannot revive it. */
  lemma MarkInv(s: App, c: nat, child: Child)
    requires Inv(s) && c < |s.children|
    requires child.exited == s.children[c].exited && child.phase == s.children[c].phase
    requires child.alive ==> s.children[c].alive
    ensures Inv(s.(children := s.children[c := child]))
  {
    var t := s.(children := s.children[c := child]);
    assert LastRuns(t.children) == LastRuns(s.children);
    assert s.children[c] in s.children;
    forall d | 0 <= d < |t.children| && Gone(s.children[d]) ensures Gone(t.children[d]) {
    }
  }

  lemma NotGoneIsLast(s: App, c: nat)
    requires Inv(s) && c < |s.children| && !Gone(s.children[c])
    ensures c == |s.children| - 1 && LastRuns(s.children)
  {
  }

  /** A starting child is the last one, and has not been seen to exit. */
  lemma StartingIsLast(s: App, c: nat)
    requires Inv(s) && c < |s.children| && s.children[c].phase.Starting?
    ensures c == |s.children| - 1 && LastRuns(s.children) && !s.lost
  {
    assert s.children[c] in s.children;
    NotGoneIsLast(s, c);
  }

  lemma WatchInv(s: App, c: nat)
    requires Inv(s) && c < |s.children| && s.children[c].phase.Starting?
    ensures Inv(Watch(s, c))
  {
    StartingIsLast(s, c);
    var t := Watch(s, c);
    assert forall d :: 0 <= d < |t.children| - 1 ==> t.children[d] == s.children[d];
    assert LastRuns(t.children);
  }

  lemma WritingInv(s: App, c: nat)
    requires Inv(s) && c < |s.children| && s.children[c].phase.Starting?
    ensures Inv(FailWriting(s, c))
  {
    StartingIsLast(s, c);
    var t := FailWriting(s, c);
    assert forall d :: 0 <= d < |t.children| - 1 ==> t.children[d] == s.children[d];
    assert LastRuns(t.children);
  }

  lemma ObserveInv(s: App, c: nat)
    requires Inv(s) && c < |s.children| && s.children[c].phase.Watched?
    requires !s.children[c].alive && !s.children[c].exited
    ensures Inv(Observe(s, c))
  {
    NotGoneIsLast(s, c);
    var t := Observe(s, c);
    assert !s.lost && !LastRuns(t.children);
    forall d | 0 <= d < |t.children| - 1 ensures Gone(t.children[d]) {
      assert Gone(s.children[d]);
    }
  }

  lemma PollInv(s: App, c: nat, found: bool)
    requires Inv(s) && c < |s.children|
    ensures Inv(Poll(s, c, found))
  {
    var t := Poll(s, c, found);
    if !s.children[c].exited {
      NotGoneIsLast(s, c);
    }
    MarkInv(s, c, t.children[c]);
  }

  lemma {:induction false} RunInv(s: App, es: seq<Event>, t: App)
    requires Inv(s) && Runs(s, es, t)
    ensures Inv(t)
    decreases |es|
  {
    if es != [] {
      StepInv(s, es[0]);
      RunInv(Apply(s, es[0]), es[1..], t);
    }
  }

  /** A start, a child that is watched or about to be, or the timer of the next start. */
  predicate UnderWay(s: App) {
    s.removing > 0 || |s.timers| > 0 || (LastRuns(s.children) && !s.children[|s.children| - 1].phase.Abandoned?)
  }

  predicate Fails(e: Event) {
    e.FailsRemoval? || e.FailsWriting?
  }

  lemma StepLost(s: App, e: Event)
    requires Enabled(s, e)
    ensures Apply(s, e).lost <==> s.lost || Fails(e)
  {
  }

  lemma {:induction false} LostExactly(s: App, es: seq<Event>, t: App)
    requires Runs(s, es, t)
    ensures t.lost <==> s.lost || exists e :: e in es && Fails(e)
    decreases |es|
  {
    if es != [] {
      LostExactly(Apply(s, es[0]), es[1..], t);
      StepLost(s, es[0]);
      assert es[0] in es && forall e :: e in es <==> e == es[0] || e in es[1..];
    }
  }

  /**
   In every run at most one child of the app is alive, the installed client belongs to the last
   child, whose exit has not been seen, and until the router stops something is under way
   exactly if no call of run has failed.
   */
  lemma OneChild(es: seq<Event>, t: App)
    requires Runs(STARTED, es, t)
    ensures forall c, d :: 0 <= c < |t.children| && 0 <= d < |t.children| ==>
              t.children[c].alive && t.children[d].alive ==> c == d
    ensures t.client.Some? ==> t.client.value + 1 == |t.children| && !t.children[t.client.value].exited
    ensures !t.stopping ==> (UnderWay(t) <==> forall e :: e in es ==> !Fails(e))
  {
    RunInv(STARTED, es, t);
    LostExactly(STARTED, es, t);
    forall c | 0 <= c < |t.children| && t.children[c].alive ensures c == |t.children| - 1 {
      NotGoneIsLast(t, c);
    }
  }

  /** A poll of the child that has the client finds it still the last one. */
  lemma StepServed(s: App, e: Event, c: nat)
    requires Inv(s) && Enabled(s, e) && s.client == Some(c) && e != Observes(c)
    ensures Apply(s, e).client == Some(c)
  {
    match e
    case Observes(d) => NotGoneIsLast(s, d);
    case Polls(d, found) => if !s.children[d].exited { NotGoneIsLast(s, d); }
    case _ =>
  }

  lemma {:induction false} ServedRuns(s: App, es: seq<Event>, t: App, c: nat)
    requires Inv(s) && Runs(s, es, t) && s.client == Some(c) && Observes(c) !in es
    ensures t.client == Some(c)
    decreases |es|
  {
    if es == [] {
    } else {
      assert es[0] in es && forall e :: e in es[1..] ==> e in es;
      StepInv(s, es[0]);
      StepServed(s, es[0], c);
      ServedRuns(Apply(s, es[0]), es[1..], t, c);
    }
  }

  /**
   A child whose socket is found before its exit is seen gets the client, and keeps it in every
   run until its exit is seen; one that still has none after two minutes is killed.
   */
  lemma ServedUntilExit(s: App, c: nat, found: bool, es: seq<Event>, t: App)
    requires Inv(s) && Enabled(s, Polls(c, found)) && Runs(Apply(s, Polls(c, found)), es, t)
    ensures found && !s.children[c].exited && Observes(c) !in es ==> t.client == Some(c)
    ensures !found ==> Apply(s, Polls(c, found)).client == s.client
    ensures Apply(s, Polls(c, found)).children[c].alive
            <==> s.children[c].alive && (found || s.now - s.children[c].started <= 120_000)
  {
    StepInv(s, Polls(c, found));
    if found && !s.children[c].exited && Observes(c) !in es {
      ServedRuns(Apply(s, Polls(c, found)), es, t, c);
    }
  }

  // ---------------------------------------------------------------------------
  // Backoff

  /** The number of exits before exit i since the last child that was stable. */
  function Streak(exits: seq<Exit>, i: nat): nat
    requires i < |exits|
  {
    if exits[i].lifetime > STABLE_MS || i == 0 then 0 else Streak(exits, i - 1) + 1
  }

  predicate BackedOff(exits: seq<Exit>, failures: nat) {
    && (forall i :: 0 <= i < |exits| ==> exits[i].delay == Delay(Streak(exits, i)))
    && failures == if exits == [] then 0 else Streak(exits, |exits| - 1) + 1
  }

  lemma {:induction false} StreakAppend(exits: seq<Exit>, x: Exit, i: nat)
    requires i < |exits|
    ensures Streak(exits + [x], i) == Streak(exits, i)
  {
    if i > 0 {
      StreakAppend(exits, x, i - 1);
    }
  }

  lemma ObserveBackedOff(s: App, c: nat)
    requires BackedOff(s.exits, s.failures) && c < |s.children|
    ensures BackedOff(Observe(s, c).exits, Observe(s, c).failures)
  {
    if !s.stopping {
      var t := Observe(s, c);
      var x := t.exits[|s.exits|];
      forall i | 0 <= i < |s.exits| ensures Streak(t.exits, i) == Streak(s.exits, i) {
        StreakAppend(s.exits, x, i);
      }
    }
  }

  lemma StepBackedOff(s: App, e: Event)
    requires BackedOff(s.exits, s.failures) && Enabled(s, e)
    ensures BackedOff(Apply(s, e).exits, Apply(s, e).failures)
  {
    if e.Observes? {
      ObserveBackedOff(s, e.c);
    } else {
      assert Apply(s, e).exits == s.exits && Apply(s, e).failures == s.failures;
    }
  }

  lemma {:induction false} RunBackedOff(s: App, es: seq<Event>, t: App)
    requires BackedOff(s.exits, s.failures) && Runs(s, es, t)
    ensures BackedOff(t.exits, t.failures)
    decreases |es|
  {
    if es != [] {
      StepBackedOff(s, es[0]);
      RunBackedOff(Apply(s, es[0]), es[1..], t);
    }
  }

  lemma {:induction false} PowerGrows(n: nat)
    ensures PrimeField.Pow(2, n) >= 1
    ensures (n >= 6 ==> PrimeField.Pow(2, n) >= 64) && (n < 6 ==> PrimeField.Pow(2, n) <= 32)
  {
    if n <= 6 {
      assert PrimeField.Pow(2, 1) == 2 && PrimeField.Pow(2, 2) == 4 && PrimeField.Pow(2, 3) == 8;
      assert PrimeField.Pow(2, 4) == 16 && PrimeField.Pow(2, 5) == 32;
    } else {
      PowerGrows(n - 1);
    }
  }

  /** In a streak each delay is twice the one before, up to a minute. */
  lemma DelayDoubles(k: nat)
    ensures Delay(0) == 1000
    ensures Delay(k + 1) == if 2 * Delay(k) < 60_000 then 2 * Delay(k) else 60_000
  {
    PowerGrows(k);
  }

  /**
   The delay after each exit is that of the streak of exits since the last child that ran for
   over a minute; it starts at a second, doubles, and is a minute from the seventh exit on.
   */
  lemma BackoffExactly(es: seq<Event>, t: App, i: nat)
    requires Runs(STARTED, es, t) && i < |t.exits|
    ensures var k := Streak(t.exits, i);
            && (t.exits[i].delay == MAX_DELAY <==> k >= 6)
            && (k == 0 ==> t.exits[i].delay == 1000)
            && (0 < k < 6 ==> i > 0 && t.exits[i].delay == 2 * t.exits[i - 1].delay)
    ensures t.exits[i].delay
            == if i == 0 || t.exits[i].lifetime > 60_000 then 1000
               else if 2 * t.exits[i - 1].delay < 60_000 then 2 * t.exits[i - 1].delay
               else 60_000
  {
    DelayDoubles(if i == 0 then 0 else Streak(t.exits, i - 1));
    RunBackedOff(STARTED, es, t);
    PowerGrows(Streak(t.exits, i));
    if i > 0 {
      PowerGrows(Streak(t.exits, i - 1));
    }
  }

  // ---------------------------------------------------------------------------
  // Stopping

  /** No call of run is under way or to come. */
  predicate Quiet(s: App) {
    s.stopping && s.removing == 0 && s.timers == multiset{}
  }

  lemma {:induction false} QuietRuns(s: App, es: seq<Event>, t: App)
    requires Quiet(s) && Runs(s, es, t)
    ensures |t.children| == |s.children|
    decreases |es|
  {
    if es != [] {
      assert Quiet(Apply(s, es[0]));
      QuietRuns(Apply(s, es[0]), es[1..], t);
    }
  }

  ghost predicate SpawnsLater(s: App) {
    exists es, t :: Runs(s, es, t) && |t.children| > |s.children|
  }

  lemma SpawnNow(s: App)
    requires s.removing > 0 && !s.over
    ensures Runs(s, [Spawns], Spawn(s))
  {
    assert [Spawns][1..] == [] && Runs(Spawn(s), [], Spawn(s));
  }

  lemma RunsPrepend(s: App, e: Event, es: seq<Event>, t: App)
    requires Enabled(s, e) && Runs(Apply(s, e), es, t)
    ensures Runs(s, [e] + es, t)
  {
    assert ([e] + es)[1..] == es;
  }

  /**
   The exit callback respects stopping, but a timer that is already set does not: once the
   router is stopping, and until its requests are drained and it exits, a new child can still
   be spawned, exactly if at that moment a call of run has not spawned its child yet or a
   respawn timer is outstanding.
   */
  lemma SpawnAfterStop(s: App)
    requires !s.over
    ensures SpawnsLater(s.(stopping := true)) <==> s.removing > 0 || s.timers != multiset{}
  {
    var u := s.(stopping := true);
    if s.removing > 0 {
      SpawnNow(u);
    } else if s.timers != multiset{} {
      var due :| due in s.timers;
      var wait := Ticks(if due > s.now then due - s.now else 0);
      var v := Apply(u, wait);
      var w := Respawn(v, due);
      SpawnNow(w);
      RunsPrepend(v, Fires(due), [Spawns], Spawn(w));
      RunsPrepend(u, wait, [Fires(due)] + [Spawns], Spawn(w));
    } else if SpawnsLater(u) {
      var es, t :| Runs(u, es, t) && |t.children| > |u.children|;
      QuietRuns(u, es, t);
    }
  }

  /** Nothing is spawned once the router has exited. */
  lemma OverIsOver(s: App, es: seq<Event>, t: App)
    requires s.over && Runs(s, es, t)
    ensures t == s
  {
  }

  /** The first child has died, and the router stops while its respawn timer runs. */
  lemma StoppedBetween() returns (es: seq<Event>, t: App)
    ensures Runs(STARTED, es, t) && t.stopping && !t.over && t.removing == 0 && !LastRuns(t.children)
    ensures SpawnsLater(t)
  {
    var s1 := Spawn(STARTED);
    var s2 := Watch(s1, 0);
    var s3 := Apply(s2, Dies(0));
    var s4 := Observe(s3, 0);
    t := Apply(s4, Stops);
    assert Runs(t, [], t);
    RunsPrepend(s4, Stops, [], t);
    RunsPrepend(s3, Observes(0), [Stops] + [], t);
    RunsPrepend(s2, Dies(0), [Observes(0)] + ([Stops] + []), t);
    RunsPrepend(s1, Watches(0), [Dies(0)] + ([Observes(0)] + ([Stops] + [])), t);
    RunsPrepend(STARTED, Spawns, [Watches(0)] + ([Dies(0)] + ([Observes(0)] + ([Stops] + []))), t);
    es := [Spawns] + ([Watches(0)] + ([Dies(0)] + ([Observes(0)] + ([Stops] + []))));
    assert s4.timers[s4.now + Delay(0)] == 1;
    SpawnAfterStop(s4);
  }

  // ---------------------------------------------------------------------------
  // The object that the router keeps for the app, with what its callbacks have captured

  class SupervisedApp {
    var now: nat
    var removing: nat
    var children: seq<Child>
    var timers: multiset<nat>
    var client: Option<nat>
    var failures: nat
    var stopping: bool
    ghost var lost: bool
    ghost var over: bool
    ghost var exits: seq<Exit>

    ghost function State(): App
      reads this
    {
      App(now, removing, children, timers, client, failures, stopping, lost, over, exits)
    }

    constructor ()
      ensures State() == STARTED && Inv(State())
    {
      now, removing, children, timers, client, failures, stopping := 0, 1, [], multiset{}, None, 0, false;
      lost, over, exits := false, false, [];
    }

    /** run, once the old socket is removed. */
    method SpawnChild() returns (c: nat)
      requires Inv(State()) && removing > 0
      modifies this
      ensures State() == Spawn(old(State())) && Inv(State())
      ensures c == |old(children)| && children == old(children) + [Child(now, true, false, false, Starting)]
      ensures removing == old(removing) - 1 && client == old(client)
    {
      SpawnInv(State());
      c := |children|;
      removing := removing - 1;
      children := children + [Child(now, true, false, false, Starting)];
    }

    /** The environment is written to the child: from now on its exit is seen, and it is polled. */
    method WatchChild(c: nat)
      requires Inv(State()) && c < |children| && children[c].phase.Starting?
      modifies this
      ensures State() == Watch(old(State()), c) && Inv(State())
      ensures children == old(children)[c := old(children)[c].(phase := Watched, polling := true)]
    {
      WatchInv(State(), c);
      children := children[c := children[c].(phase := Watched, polling := true)];
    }

    /** The callback on child.status; the delay until the respawn, if there is one. */
    method ExitCallback(c: nat) returns (delay: Option<nat>)
      requires Inv(State()) && Enabled(State(), Observes(c))
      modifies this
      ensures State() == Observe(old(State()), c) && Inv(State())
      ensures delay.Some? == !stopping && client == None
      ensures delay.Some? ==> timers == old(timers) + multiset{now + delay.value}
      ensures delay.None? ==> timers == old(timers) && failures == old(failures)
      ensures delay.Some? ==>
                var n := if now - old(children)[c].started > 60_000 then 0 else old(failures);
                && failures == n + 1
                && (n == 0 ==> delay.value == 1000)
                && (n >= 6 ==> delay.value == 60_000)
                && exits == old(exits) + [Exit(now - old(children)[c].started, delay.value)]
      ensures children == old(children)[c := old(children)[c].(exited := true)]
    {
      ObserveInv(State(), c);
      delay := Exited(c);
    }

    method Exited(c: nat) returns (delay: Option<nat>)
      requires c < |children|
      modifies this
      ensures State() == Observe(old(State()), c)
      ensures delay.Some? == !stopping && client == None
      ensures delay.Some? ==> timers == old(timers) + multiset{now + delay.value}
      ensures delay.None? ==> timers == old(timers) && failures == old(failures)
      ensures delay.Some? ==>
                var n := if now - old(children)[c].started > 60_000 then 0 else old(failures);
                && failures == n + 1
                && (n == 0 ==> delay.value == 1000)
                && (n >= 6 ==> delay.value == 60_000)
                && exits == old(exits) + [Exit(now - old(children)[c].started, delay.value)]
      ensures children == old(children)[c := old(children)[c].(exited := true)]
    {
      ObserveFields(State(), c);
      var started := children[c].started;
      MarkExited(c);
      if stopping {
        return None;
      }
      var wait := BackOff(started);
      delay := Some(wait);
    }

    method MarkExited(c: nat)
      requires c < |children|
      modifies this`children, this`client
      ensures children == old(children)[c := old(children)[c].(exited := true)] && client == None
    {
      children := children[c := children[c].(exited := true)];
      client := None;
    }

    static lemma ObserveFields(s: App, c: nat)
      requires c < |s.children|
      ensures var child := s.children[c];
              var n := if s.now - child.started > STABLE_MS then 0 else s.failures;
              var children := s.children[c := child.(exited := true)];
              Observe(s, c)
              == if s.stopping then s.(children := children, client := None)
                 else App(s.now, s.removing, children, s.timers + multiset{s.now + Delay(n)}, None, n + 1, false,
                          s.lost, s.over, s.exits + [Exit(s.now - child.started, Delay(n))])
    {
    }

    /** The delay until the respawn, and its timer. */
    method BackOff(started: nat) returns (delay: nat)
      modifies this`failures, this`timers, this`exits
      ensures var n := if now - started > STABLE_MS then 0 else old(failures);
              && delay == Delay(n) && failures == n + 1
              && (n == 0 ==> delay == 1000) && (n >= 6 ==> delay == 60_000)
      ensures timers == old(timers) + multiset{now + delay} && exits == old(exits) + [Exit(now - started, delay)]
    {
      PowerGrows(if now - started > STABLE_MS then 0 else failures);
      if now - started > STABLE_MS {
        failures := 0;
      }
      delay := Delay(failures);
      failures := failures + 1;
      timers := timers + multiset{now + delay};
      exits := exits + [Exit(now - started, delay)];
    }

    /** One turn of the polling loop; true when it installed the client. */
    method PollTurn(c: nat, found: bool) returns (loaded: bool)
      requires Inv(State()) && Enabled(State(), Polls(c, found))
      modifies this
      ensures State() == Poll(old(State()), c, found) && Inv(State())
      ensures loaded == (found && !old(children[c]).exited)
      ensures client == if loaded then Some(c) else old(client)
      ensures var child, late := old(children)[c], now - old(children)[c].started > 120_000;
              children == old(children)[c := child.(polling := !found && !late && !child.exited,
                                                    alive := child.alive && (found || !late))]
    {
      StepInv(State(), Polls(c, found));
      var child := children[c];
      loaded := found && !child.exited;
      if found {
        children := children[c := child.(polling := false)];
        if !child.exited {
          client := Some(c);
        }
      } else if now - child.started > STARTUP_MS {
        children := children[c := child.(polling := false, alive := false)];
      } else {
        children := children[c := child.(polling := !child.exited)];
      }
    }

    /** The respawn timer calls run again. */
    method TimerFires(due: nat)
      requires Inv(State()) && Enabled(State(), Fires(due))
      modifies this
      ensures State() == Respawn(old(State()), due) && Inv(State())
      ensures removing == old(removing) + 1 && timers == old(timers) - multiset{due}
    {
      StepInv(State(), Fires(due));
      timers := timers - multiset{due};
      removing := removing + 1;
    }
  }
}
