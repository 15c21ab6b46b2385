/**
 What holds over whole runs of the tunnel relay: every visitor is answered once, and a
 client that polls with its last sequence number receives the requests in order.
 */
module TunnelRuns {
  import opened TunnelModel
  import opened Options

  /** t is reached from s by es, and no request id is reused while its timer is outstanding. */
  ghost predicate Runs(s: Server, es: seq<Event>, t: Server)
    decreases |es|
  {
    if es == [] then s == t
    else Enabled(s, es[0]) && (es[0].Commits? ==> Unused(s, es[0].id)) && Runs(Apply(s, es[0]), es[1..], t)
  }

  lemma {:induction false} RunPromises(s: Server, es: seq<Event>, t: Server)
    requires Promises(s) && Runs(s, es, t)
    ensures Promises(t)
    decreases |es|
  {
    if es != [] {
      StepPromises(s, es[0]);
      RunPromises(Apply(s, es[0]), es[1..], t);
    }
  }

  lemma StartedPromises()
    ensures Promises(STARTED)
  {
  }

  /**
   In every run each visitor's promise is resolved at most once, by whichever of the relay,
   its timer and the sweep comes first, and exactly once by the time its timer has fired,
   whatever happened to its tunnel.
   */
  lemma ResolvedExactlyOnce(es: seq<Event>, t: Server, call: nat)
    requires Runs(STARTED, es, t) && call < t.calls
    ensures t.resolves[call] <= 1
    ensures t.resolves[call] == 1 <==> call in t.answers
    ensures t.resolves[call] == 0 <==> exists r :: r in t.pending && r.call == call
    ensures call !in t.timers ==> t.resolves[call] == 1
  {
    StartedPromises();
    RunPromises(STARTED, es, t);
  }

  // ---------------------------------------------------------------------------
  // Request ids

  lemma RunsPrepend(s: Server, e: Event, es: seq<Event>, t: Server)
    requires Enabled(s, e) && (e.Commits? ==> Unused(s, e.id)) && Runs(Apply(s, e), es, t)
    ensures Runs(s, [e] + es, t)
  {
    assert ([e] + es)[1..] == es;
  }

  /** Some run leaves the promise of the call unresolved although its timer has fired. */
  ghost predicate Strands(s: Server, call: nat) {
    exists es, t :: Runs(s, es, t) && call < t.calls && call !in t.timers && t.resolves[call] == 0
  }

  lemma {:induction false} SetHas(pending: seq<Request>, r: Request)
    ensures Has(Set(pending, r), r.id)
  {
    if pending == [] || pending[0].id == r.id {
      assert Set(pending, r)[0] == r;
    } else {
      SetHas(pending[1..], r);
      assert forall q :: q in Set(pending[1..], r) ==> q in Set(pending, r);
    }
  }

  /** When two timers with one id are due, the first resolves its call and the second finds nothing. */
  lemma TwoTimers(u: Server, c: nat, d: nat, id: string)
    requires c in u.timers && d in u.timers && c != d && u.timers[c].id == u.timers[d].id == id
    requires u.timers[c].due <= u.now && u.timers[d].due <= u.now && Has(u.pending, id)
    ensures var t := Fire(u, c); d in t.timers && Runs(u, [Fires(c), Fires(d)], Fire(t, d))
    ensures var t := Fire(Fire(u, c), d); d !in t.timers && t.calls == u.calls && t.resolves[d] == u.resolves[d]
  {
    var t := Fire(u, c);
    WithoutMembers(u.pending, id);
    assert !Has(t.pending, id);
    var v := Fire(t, d);
    assert Runs(v, [], v);
    RunsPrepend(t, Fires(d), [], v);
    RunsPrepend(u, Fires(c), [Fires(d)], v);
    assert [Fires(c)] + [Fires(d)] == [Fires(c), Fires(d)] && [Fires(d)] + [] == [Fires(d)];
  }

  /** The id of an outstanding timer is given out again: both timers fire, the new call is stranded. */
  lemma ReuseStrands(s: Server, tid: string, id: string, c: nat)
    requires Promises(s) && tid in s.tunnels && c in s.timers && s.timers[c].id == id
    ensures Strands(Commit(s, tid, id), s.calls)
  {
    var u, d := Commit(s, tid, id), s.calls;
    SetHas(s.pending, Request(id, d, s.now, tid));
    var delay: nat := Abs(s.timers[c].due - s.now) + PROMISE_TIMEOUT;
    var v := Apply(u, Ticks(delay));
    WaitAndFire(u, v, delay, c, d, id);
    assert s.resolves[d] == 0;
  }

  lemma WaitAndFire(u: Server, v: Server, delay: nat, c: nat, d: nat, id: string)
    requires c in u.timers && d in u.timers && c != d && u.timers[c].id == u.timers[d].id == id
    requires v == Apply(u, Ticks(delay)) && u.timers[c].due <= v.now && u.timers[d].due <= v.now && Has(u.pending, id)
    requires d < u.calls && u.resolves[d] == 0
    ensures Strands(u, d)
  {
    TwoTimers(v, c, d, id);
    var t := Fire(Fire(v, c), d);
    RunsPrepend(u, Ticks(delay), [Fires(c), Fires(d)], t);
    assert t.resolves[d] == 0;
  }

  function Abs(x: int): nat {
    if x < 0 then -x else x
  }

  /**
   A visitor can be left unanswered after its timer has fired, exactly if its request was given
   the id of a timer that was still outstanding.
   */
  lemma StrandedExactly(s: Server, tid: string, id: string)
    requires Promises(s) && tid in s.visits && tid in s.tunnels
    ensures Strands(Commit(s, tid, id), s.calls) <==> !Unused(s, id)
  {
    if Unused(s, id) {
      CommitPromises(s, tid, id);
      forall es, t | Runs(Commit(s, tid, id), es, t) && s.calls < t.calls && s.calls !in t.timers
        ensures t.resolves[s.calls] == 1
      {
        RunPromises(Commit(s, tid, id), es, t);
      }
    } else {
      var c :| c in s.timers && s.timers[c].id == id;
      ReuseStrands(s, tid, id, c);
    }
  }

  // ---------------------------------------------------------------------------
  // Numbering

  /** The pending requests carry increasing numbers above low. */
  ghost predicate Ascending(pending: seq<Request>, seqs: map<string, nat>, low: nat) {
    pending == []
    || (pending[0].id in seqs && low < seqs[pending[0].id] && Ascending(pending[1..], seqs, seqs[pending[0].id]))
  }

  lemma AscendingLower(pending: seq<Request>, seqs: map<string, nat>, low: nat, low': nat)
    requires Ascending(pending, seqs, low') && low <= low'
    ensures Ascending(pending, seqs, low)
  {
  }

  lemma {:induction false} AscendingMembers(pending: seq<Request>, seqs: map<string, nat>, low: nat)
    requires Ascending(pending, seqs, low)
    ensures forall r :: r in pending ==> r.id in seqs && low < seqs[r.id]
  {
    if pending != [] {
      AscendingMembers(pending[1..], seqs, seqs[pending[0].id]);
      assert pending == [pending[0]] + pending[1..];
    }
  }

  lemma {:induction false} AscendingWithout(pending: seq<Request>, seqs: map<string, nat>, low: nat, id: string)
    requires Ascending(pending, seqs, low)
    ensures Ascending(Without(pending, id), seqs - {id}, low)
  {
    if pending != [] {
      var head, n := pending[0], seqs[pending[0].id];
      AscendingWithout(pending[1..], seqs, n, id);
      var rest := Without(pending[1..], id);
      if head.id == id {
        AscendingLower(rest, seqs - {id}, low, n);
      } else {
        assert ([head] + rest)[1..] == rest;
      }
    }
  }

  lemma {:induction false} AscendingFresh(pending: seq<Request>, seqs: map<string, nat>, low: nat, now: int)
    requires Ascending(pending, seqs, low)
    ensures Ascending(Fresh(pending, now), seqs, low)
  {
    if pending != [] {
      var head, n := pending[0], seqs[pending[0].id];
      AscendingFresh(pending[1..], seqs, n, now);
      var rest := Fresh(pending[1..], now);
      if now - head.timestamp > SWEEP_TIMEOUT {
        assert Fresh(pending, now) == rest;
        AscendingLower(rest, seqs, low, n);
      } else {
        assert ([head] + rest)[1..] == rest;
      }
    }
  }

  lemma {:induction false} AscendingAppend(pending: seq<Request>, seqs: map<string, nat>, low: nat, r: Request, k: nat)
    requires Ascending(pending, seqs, low) && !Has(pending, r.id) && low < k
    requires forall q :: q in pending ==> q.id in seqs && seqs[q.id] < k
    ensures Ascending(pending + [r], seqs[r.id := k], low)
  {
    if pending == [] {
      assert ([] + [r])[1..] == [];
    } else {
      assert pending[0] in pending && forall q :: q in pending[1..] ==> q in pending;
      AscendingAppend(pending[1..], seqs, seqs[pending[0].id], r, k);
      assert (pending + [r])[1..] == pending[1..] + [r];
    }
  }

  /** Numbers given to other ids do not matter. */
  lemma {:induction false} AscendingOther(pending: seq<Request>, seqs: map<string, nat>, low: nat, id: string, k: nat)
    requires Ascending(pending, seqs, low) && !Has(pending, id)
    ensures Ascending(pending, seqs[id := k], low)
  {
    if pending != [] {
      assert pending[0] in pending && forall q :: q in pending[1..] ==> q in pending;
      AscendingOther(pending[1..], seqs, seqs[pending[0].id], id, k);
    }
  }

  /** With increasing numbers the scan finds the least one above `after`, or there is none. */
  lemma {:induction false} ScanLeast(pending: seq<Request>, seqs: map<string, nat>, low: nat, after: nat)
    requires Ascending(pending, seqs, low)
    ensures match Scan(pending, seqs, after)
            case None => forall q :: q in pending ==> q.id in seqs && seqs[q.id] <= after
            case Some(r) =>
              && r in pending && r.id in seqs && seqs[r.id] > after
              && (forall q :: q in pending ==> q.id in seqs && (seqs[q.id] > after ==> seqs[r.id] <= seqs[q.id]))
  {
    if pending != [] {
      var n := seqs[pending[0].id];
      assert pending == [pending[0]] + pending[1..];
      AscendingMembers(pending[1..], seqs, n);
      ScanLeast(pending[1..], seqs, n, after);
    }
  }

  ghost predicate Received(s: Server, call: nat) {
    exists d :: d in s.got && d.call == call
  }

  /** A pending request whose number the client has passed without receiving it. */
  ghost predicate PassedOver(s: Server) {
    exists r :: r in s.pending && r.id in s.seqs && s.seqs[r.id] <= s.last && !Received(s, r.call)
  }

  /** What the client has received, in increasing numbers. */
  ghost predicate Log(s: Server) {
    && (forall i, j :: 0 <= i < j < |s.got| ==> s.got[i].number < s.got[j].number)
    && s.last == (if s.got == [] then 0 else s.got[|s.got| - 1].number)
    && (forall d :: d in s.got ==> d.call < s.calls)
  }

  /** The pending requests stand in the order of their numbers, and none has been passed over. */
  ghost predicate InOrder(s: Server) {
    Ascending(s.pending, s.seqs, 0) && Log(s) && !PassedOver(s)
  }

  /** The next number of the tunnel is above the client's last one and every pending one. */
  ghost predicate Above(s: Server, tid: string)
    requires tid in s.tunnels
  {
    var k := s.tunnels[tid].pollSeq + 1;
    k > s.last && forall r :: r in s.pending ==> r.id in s.seqs && s.seqs[r.id] < k
  }

  lemma CommitInOrder(s: Server, tid: string, id: string)
    requires Promises(s) && InOrder(s) && tid in s.tunnels && Unused(s, id) && Above(s, tid)
    ensures InOrder(Commit(s, tid, id))
  {
    CommitParts(s, tid, id);
    Appended(s, Commit(s, tid, id), Request(id, s.calls, s.now, tid), s.tunnels[tid].pollSeq + 1);
  }

  lemma CommitParts(s: Server, tid: string, id: string)
    requires TimersKnown(s) && tid in s.tunnels && Unused(s, id)
    ensures var t, k := Commit(s, tid, id), s.tunnels[tid].pollSeq + 1;
            && !Has(s.pending, id) && t.pending == s.pending + [Request(id, s.calls, s.now, tid)]
            && t.seqs == s.seqs[id := k] && t.last == s.last && t.got == s.got && t.calls == s.calls + 1
  {
    assert !Has(s.pending, id);
    SetAppends(s.pending, Request(id, s.calls, s.now, tid));
  }

  /** A request with a number above everything comes in last. */
  lemma Appended(s: Server, t: Server, r: Request, k: nat)
    requires InOrder(s) && !Has(s.pending, r.id) && k > s.last
    requires forall q :: q in s.pending ==> q.id in s.seqs && s.seqs[q.id] < k
    requires t.pending == s.pending + [r] && t.seqs == s.seqs[r.id := k] && t.last == s.last && t.got == s.got
    requires t.calls >= s.calls
    ensures InOrder(t)
  {
    AscendingAppend(s.pending, s.seqs, 0, r, k);
    CommitLogs(s, t);
    CommitPasses(s, t, r, k);
  }

  lemma CommitLogs(s: Server, t: Server)
    requires Log(s) && t.last == s.last && t.got == s.got && t.calls >= s.calls
    ensures Log(t)
  {
  }

  lemma CommitPasses(s: Server, t: Server, r: Request, k: nat)
    requires !PassedOver(s) && !Has(s.pending, r.id) && k > s.last
    requires t.pending == s.pending + [r] && t.seqs == s.seqs[r.id := k] && t.last == s.last && t.got == s.got
    ensures !PassedOver(t)
  {
    forall q | q in t.pending && q.id in t.seqs && t.seqs[q.id] <= t.last ensures Received(t, q.call) {
      assert q in s.pending && Received(s, q.call);
    }
  }

  /** Removing requests passes nothing over. */
  lemma FewerPassedOver(s: Server, t: Server)
    requires !PassedOver(s) && t.last == s.last && t.got == s.got
    requires forall r :: r in t.pending ==> r in s.pending
    requires forall r :: r in t.pending && r.id in t.seqs ==> r.id in s.seqs && s.seqs[r.id] == t.seqs[r.id]
    ensures !PassedOver(t)
  {
    forall r | r in t.pending && r.id in t.seqs && t.seqs[r.id] <= t.last ensures Received(t, r.call) {
      assert Received(s, r.call);
    }
  }

  lemma RemoveInOrder(s: Server, t: Server, id: string)
    requires InOrder(s)
    requires t.pending == Without(s.pending, id) && t.seqs == s.seqs - {id}
    requires t.last == s.last && t.got == s.got && t.calls == s.calls
    ensures InOrder(t)
  {
    AscendingWithout(s.pending, s.seqs, 0, id);
    WithoutMembers(s.pending, id);
    FewerPassedOver(s, t);
  }

  lemma SweepInOrder(s: Server)
    requires InOrder(s)
    ensures InOrder(Sweep(s))
  {
    AscendingFresh(s.pending, s.seqs, 0, s.now);
    FreshMembers(s.pending, s.now);
    FewerPassedOver(s, Sweep(s));
  }

  lemma {:induction false} NumbersDiffer(pending: seq<Request>, seqs: map<string, nat>, low: nat,
                                         q: Request, r: Request)
    requires Ascending(pending, seqs, low) && q in pending && r in pending
    requires q.id in seqs && r.id in seqs && seqs[q.id] == seqs[r.id]
    ensures q == r
  {
    var n, rest := seqs[pending[0].id], pending[1..];
    assert pending == [pending[0]] + rest;
    AscendingMembers(rest, seqs, n);
    if q != pending[0] && r != pending[0] {
      NumbersDiffer(rest, seqs, n, q, r);
    }
  }

  lemma ScanInOrder(s: Server)
    requires Promises(s) && InOrder(s)
    ensures InOrder(PollScan(s))
  {
    var t := PollScan(s);
    ScanLeast(s.pending, s.seqs, 0, s.last);
    if Scan(s.pending, s.seqs, s.last).Some? {
      var r := Scan(s.pending, s.seqs, s.last).value;
      Delivered(s, t, r);
      ScanPasses(s, t, r);
    }
  }

  /** A delivery extends the log, whatever is pending. */
  lemma Delivered(s: Server, t: Server, r: Request)
    requires TimersKnown(s) && Log(s) && r in s.pending && r.id in s.seqs && s.seqs[r.id] > s.last
    requires t == s.(poll := None, last := s.seqs[r.id], got := s.got + [Delivery(s.seqs[r.id], r.call, r.tid)])
    ensures Log(t)
  {
  }

  lemma ScanPasses(s: Server, t: Server, r: Request)
    requires Ascending(s.pending, s.seqs, 0) && !PassedOver(s)
    requires r in s.pending && r.id in s.seqs && s.seqs[r.id] > s.last
    requires forall q :: q in s.pending ==> q.id in s.seqs && (s.seqs[q.id] > s.last ==> s.seqs[r.id] <= s.seqs[q.id])
    requires t == s.(poll := None, last := s.seqs[r.id], got := s.got + [Delivery(s.seqs[r.id], r.call, r.tid)])
    ensures !PassedOver(t)
  {
    var d := Delivery(s.seqs[r.id], r.call, r.tid);
    forall q | q in t.pending && q.id in t.seqs && t.seqs[q.id] <= t.last ensures Received(t, q.call) {
      if s.seqs[q.id] <= s.last {
        var e :| e in s.got && e.call == q.call;
        assert e in t.got;
      } else {
        NumbersDiffer(s.pending, s.seqs, 0, q, r);
        assert d in t.got;
      }
    }
  }

  lemma KeptInOrder(s: Server, t: Server)
    requires InOrder(s)
    requires t.pending == s.pending && t.seqs == s.seqs && t.last == s.last && t.got == s.got && t.calls == s.calls
    ensures InOrder(t)
  {
    FewerPassedOver(s, t);
  }

  lemma RelayInOrder(s: Server, id: string, status: int)
    requires InOrder(s)
    ensures InOrder(Relay(s, id, status))
  {
    if Has(s.pending, id) {
      RemoveInOrder(s, Relay(s, id, status), id);
    }
  }

  lemma FireInOrder(s: Server, call: nat)
    requires InOrder(s) && call in s.timers
    ensures InOrder(Fire(s, call))
  {
    if Has(s.pending, s.timers[call].id) {
      RemoveInOrder(s, Fire(s, call), s.timers[call].id);
    } else {
      KeptInOrder(s, Fire(s, call));
    }
  }

  lemma StepInOrder(s: Server, e: Event)
    requires Promises(s) && InOrder(s) && Enabled(s, e)
    requires e.Commits? ==> Unused(s, e.id) && Above(s, e.tid)
    ensures InOrder(Apply(s, e))
  {
    if Aside(e) {
      AsideLeaves(s, e);
      KeptInOrder(s, Apply(s, e));
    } else {
      match e
      case Commits(tid, id) => CommitInOrder(s, tid, id);
      case Relays(id, status) => RelayInOrder(s, id, status);
      case Fires(call) => FireInOrder(s, call);
      case Sweeps => SweepInOrder(s);
      case PollScans => ScanInOrder(s);
    }
  }

  /** Every request of the run gets a number above the client's last one and every pending one. */
  ghost predicate CommitsAbove(s: Server, es: seq<Event>)
    decreases |es|
  {
    es == []
    || (Enabled(s, es[0]) && (es[0].Commits? ==> Above(s, es[0].tid)) && CommitsAbove(Apply(s, es[0]), es[1..]))
  }

  lemma {:induction false} RunInOrder(s: Server, es: seq<Event>, t: Server)
    requires Promises(s) && InOrder(s) && Runs(s, es, t) && CommitsAbove(s, es)
    ensures Promises(t) && InOrder(t)
    decreases |es|
  {
    if es != [] {
      StepPromises(s, es[0]);
      StepInOrder(s, es[0]);
      RunInOrder(Apply(s, es[0]), es[1..], t);
    }
  }

  /**
   In every run, with any number of tunnels, whose requests get numbers above the client's last
   one and every pending one: the client receives strictly increasing numbers, so none twice; no
   request that is still pending has been passed over; and what its next poll finds is the
   least pending number above the last, if there is one.
   */
  lemma DeliveredInOrder(es: seq<Event>, t: Server)
    requires Runs(STARTED, es, t) && CommitsAbove(STARTED, es)
    ensures forall i, j :: 0 <= i < j < |t.got| ==> t.got[i].number < t.got[j].number
    ensures forall r :: r in t.pending ==> r.id in t.seqs && (t.seqs[r.id] <= t.last ==> Received(t, r.call))
    ensures match Scan(t.pending, t.seqs, t.last)
            case None => forall q :: q in t.pending ==> Received(t, q.call)
            case Some(r) =>
              && r in t.pending && r.id in t.seqs && t.seqs[r.id] > t.last
              && (forall q :: q in t.pending ==>
                    q.id in t.seqs && (t.seqs[q.id] > t.last ==> t.seqs[r.id] <= t.seqs[q.id]))
              && PollScan(t).got == t.got + [Delivery(t.seqs[r.id], r.call, r.tid)]
  {
    StartedPromises();
    RunInOrder(STARTED, es, t);
    ScanLeast(t.pending, t.seqs, 0, t.last);
    AscendingMembers(t.pending, t.seqs, 0);
  }

  // ---------------------------------------------------------------------------
  // One tunnel

  ghost function PollSeq(s: Server, tid: string): nat {
    if tid in s.tunnels then s.tunnels[tid].pollSeq else 0
  }

  /** tid is the only tunnel ever made, and nothing is numbered above its counter. */
  ghost predicate OnlyTunnel(s: Server, tid: string) {
    && s.tunnels.Keys <= {tid} && s.last <= PollSeq(s, tid)
    && forall r :: r in s.pending ==> r.id in s.seqs && s.seqs[r.id] <= PollSeq(s, tid)
  }

  /** Only the tunnel tid is ever created. */
  ghost predicate OneTunnel(es: seq<Event>, tid: string) {
    forall e :: e in es ==> (e.Creates? ==> e.tid == tid)
  }

  lemma StepOnlyTunnel(s: Server, e: Event, tid: string)
    requires Promises(s) && OnlyTunnel(s, tid) && Enabled(s, e)
    requires (e.Commits? ==> Unused(s, e.id)) && (e.Creates? ==> e.tid == tid)
    ensures OnlyTunnel(Apply(s, e), tid)
  {
    if Aside(e) {
      AsideOnlyTunnel(s, e, tid);
    } else {
      match e
      case Commits(tunnel, id) => CommitOnlyTunnel(s, tid, id);
      case Relays(id, status) => RelayOnlyTunnel(s, tid, id, status);
      case Fires(call) => FireOnlyTunnel(s, tid, call);
      case Sweeps => SweepOnlyTunnel(s, tid);
      case PollScans => ScanOnlyTunnel(s, tid);
    }
  }

  lemma RelayOnlyTunnel(s: Server, tid: string, id: string, status: int)
    requires OnlyTunnel(s, tid)
    ensures OnlyTunnel(Relay(s, id, status), tid)
  {
    FewerOnlyTunnel(s, Relay(s, id, status), tid, id);
  }

  lemma FireOnlyTunnel(s: Server, tid: string, call: nat)
    requires OnlyTunnel(s, tid) && call in s.timers
    ensures OnlyTunnel(Fire(s, call), tid)
  {
    FewerOnlyTunnel(s, Fire(s, call), tid, s.timers[call].id);
  }

  lemma AsideOnlyTunnel(s: Server, e: Event, tid: string)
    requires OnlyTunnel(s, tid) && Enabled(s, e) && Aside(e) && (e.Creates? ==> e.tid == tid)
    ensures OnlyTunnel(Apply(s, e), tid)
  {
    AsideLeaves(s, e);
    assert Apply(s, e).tunnels == if e.Creates? then s.tunnels[tid := Tunnel(s.now + e.lifetime, 0)] else s.tunnels;
  }

  lemma SweepOnlyTunnel(s: Server, tid: string)
    requires OnlyTunnel(s, tid)
    ensures OnlyTunnel(Sweep(s), tid)
  {
    FreshMembers(s.pending, s.now);
  }

  lemma ScanOnlyTunnel(s: Server, tid: string)
    requires OnlyTunnel(s, tid)
    ensures OnlyTunnel(PollScan(s), tid)
  {
    ScanFinds(s.pending, s.seqs, s.last);
  }

  lemma CommitOnlyTunnel(s: Server, tid: string, id: string)
    requires Promises(s) && OnlyTunnel(s, tid) && tid in s.tunnels && Unused(s, id)
    ensures OnlyTunnel(Commit(s, tid, id), tid)
  {
    CommitPromises(s, tid, id);
    assert !Has(s.pending, id);
  }

  lemma FewerOnlyTunnel(s: Server, t: Server, tid: string, id: string)
    requires OnlyTunnel(s, tid) && t.tunnels == s.tunnels && t.last == s.last
    requires || (t.pending == Without(s.pending, id) && t.seqs == s.seqs - {id})
             || (t.pending == s.pending && t.seqs == s.seqs)
    ensures OnlyTunnel(t, tid)
  {
    WithoutMembers(s.pending, id);
  }

  lemma {:induction false} ScanFinds(pending: seq<Request>, seqs: map<string, nat>, after: nat)
    ensures match Scan(pending, seqs, after)
            case None => true
            case Some(r) => r in pending && r.id in seqs && seqs[r.id] > after
  {
    if pending != [] {
      ScanFinds(pending[1..], seqs, after);
      assert forall q :: q in pending[1..] ==> q in pending;
    }
  }

  /** With one tunnel every number is above all that came before. */
  lemma {:induction false} OneTunnelAbove(s: Server, es: seq<Event>, t: Server, tid: string)
    requires Promises(s) && OnlyTunnel(s, tid) && Runs(s, es, t) && OneTunnel(es, tid)
    ensures CommitsAbove(s, es)
    decreases |es|
  {
    if es != [] {
      assert es[0] in es && forall e :: e in es[1..] ==> e in es;
      StepPromises(s, es[0]);
      StepOnlyTunnel(s, es[0], tid);
      OneTunnelAbove(Apply(s, es[0]), es[1..], t, tid);
    }
  }

  /** With one tunnel ever created, DeliveredInOrder holds of every run. */
  lemma OneTunnelInOrder(es: seq<Event>, t: Server, tid: string)
    requires Runs(STARTED, es, t) && OneTunnel(es, tid)
    ensures CommitsAbove(STARTED, es) && InOrder(t)
  {
    StartedPromises();
    OneTunnelAbove(STARTED, es, t, tid);
    RunInOrder(STARTED, es, t);
  }

  // ---------------------------------------------------------------------------
  // Exactly when a request is passed over

  /** A continuation with no further request, whose polls are all of one tunnel. */
  ghost predicate Polling(es: seq<Event>, own: string) {
    forall e :: e in es ==> !e.Commits? && (e.PollBegins? ==> e.tid == own)
  }

  /** The client of that tunnel may pass over a pending request. */
  ghost predicate MayPassOver(s: Server, own: string) {
    exists es, t :: Runs(s, es, t) && Polling(es, own) && PassedOver(t)
  }

  lemma PassOverPrepend(s: Server, e: Event, own: string)
    requires Enabled(s, e) && !e.Commits? && (e.PollBegins? ==> e.tid == own) && MayPassOver(Apply(s, e), own)
    ensures MayPassOver(s, own)
  {
    var es, t :| Runs(Apply(s, e), es, t) && Polling(es, own) && PassedOver(t);
    RunsPrepend(s, e, es, t);
    assert Polling([e] + es, own);
  }

  lemma {:induction false} NoneAbove(s: Server, es: seq<Event>, own: string)
    requires Polling(es, own) && exists t :: Runs(s, es, t)
    ensures CommitsAbove(s, es)
    decreases |es|
  {
    if es != [] {
      var t :| Runs(s, es, t);
      assert es[0] in es && forall e :: e in es[1..] ==> e in es;
      assert Runs(Apply(s, es[0]), es[1..], t);
      NoneAbove(Apply(s, es[0]), es[1..], own);
    }
  }

  lemma InOrderStays(s: Server, own: string)
    requires Promises(s) && InOrder(s)
    ensures !MayPassOver(s, own)
  {
    forall es, t | Runs(s, es, t) && Polling(es, own) ensures !PassedOver(t) {
      NoneAbove(s, es, own);
      RunInOrder(s, es, t);
    }
  }

  /** The scan of a Map with a new last entry finds what it found before. */
  lemma {:induction false} ScanBefore(pending: seq<Request>, r: Request, seqs: map<string, nat>, after: nat)
    requires Scan(pending, seqs, after).Some?
    ensures Scan(pending + [r], seqs, after) == Scan(pending, seqs, after)
  {
    assert (pending + [r])[0] == pending[0] && (pending + [r])[1..] == pending[1..] + [r];
    if !(pending[0].id in seqs && seqs[pending[0].id] > after) {
      ScanBefore(pending[1..], r, seqs, after);
    }
  }

  /** r stands behind older requests, one of which, q, has a number at least as high. */
  ghost predicate Overtaken(s: Server, older: seq<Request>, r: Request, q: Request) {
    && s.pending == older + [r] && Ascending(older, s.seqs, 0) && q in older && q.id in s.seqs
    && r.id in s.seqs && s.seqs[r.id] <= s.seqs[q.id]
    && (forall p :: p in older ==> p.call != r.call) && !Received(s, r.call)
  }

  /** A client that goes on polling receives the older requests first, and then never r. */
  lemma {:induction false} OvertakenPassed(s: Server, older: seq<Request>, r: Request, q: Request, own: string)
    requires Overtaken(s, older, r, q) && Reachable(s, own)
    ensures MayPassOver(s, own)
    decreases s.seqs[q.id] - s.last
  {
    if s.seqs[r.id] <= s.last {
      NowPassedOver(s, r, own);
    } else {
      var t := Apply(s, PollBegins(own));
      ScanLeast(older, s.seqs, 0, s.last);
      ScanBefore(older, r, s.seqs, s.last);
      var u := Apply(t, PollScans);
      var p := Scan(older, s.seqs, s.last).value;
      ScanOvertakes(s, u, older, r, q, Delivery(s.seqs[p.id], p.call, p.tid));
      OvertakenPassed(u, older, r, q, own);
      PassOverPrepend(t, PollScans, own);
      PassOverPrepend(s, PollBegins(own), own);
    }
  }

  lemma NowPassedOver(s: Server, r: Request, own: string)
    requires r in s.pending && r.id in s.seqs && s.seqs[r.id] <= s.last && !Received(s, r.call)
    ensures MayPassOver(s, own)
  {
    assert Runs(s, [], s) && Polling([], own) && PassedOver(s);
  }

  lemma ScanOvertakes(s: Server, u: Server, older: seq<Request>, r: Request, q: Request, d: Delivery)
    requires Overtaken(s, older, r, q) && (exists p :: p in older && p.call == d.call)
    requires u.pending == s.pending && u.seqs == s.seqs && u.got == s.got + [d]
    ensures Overtaken(u, older, r, q)
  {
    forall e | e in u.got ensures e.call != r.call {
      assert e in s.got || e == d;
    }
  }

  /** After a commit that is not above, r is passed over at once or once an older request is polled. */
  lemma CommitOvertakes(s: Server, tid: string, id: string, v: Server, own: string)
    requires Promises(s) && InOrder(s) && tid in s.tunnels && Unused(s, id) && !Above(s, tid)
    requires var u := Commit(s, tid, id);
             v.pending == u.pending && v.seqs == u.seqs && v.last == u.last && v.got == u.got
    requires Reachable(v, own)
    ensures MayPassOver(v, own)
  {
    var r, k := Request(id, s.calls, s.now, tid), s.tunnels[tid].pollSeq + 1;
    CommitParts(s, tid, id);
    assert r in v.pending && v.seqs == s.seqs[id := k] && !Received(v, r.call);
    if k <= s.last {
      NowPassedOver(v, r, own);
    } else {
      OlderOvertakes(s, r, k, v, own);
    }
  }

  lemma OlderOvertakes(s: Server, r: Request, k: nat, v: Server, own: string)
    requires InOrder(s) && !Has(s.pending, r.id) && k > s.last && Reachable(v, own)
    requires exists q :: q in s.pending && (q.id in s.seqs ==> s.seqs[q.id] >= k)
    requires v.pending == s.pending + [r] && v.seqs == s.seqs[r.id := k] && v.last == s.last && v.got == s.got
    requires r.call >= s.calls && forall q :: q in s.pending ==> q.call < s.calls
    ensures MayPassOver(v, own)
  {
    AscendingMembers(s.pending, s.seqs, 0);
    var q :| q in s.pending && s.seqs[q.id] >= k;
    AscendingOther(s.pending, s.seqs, 0, r.id, k);
    assert Overtaken(v, s.pending, r, q);
    OvertakenPassed(v, s.pending, r, q, own);
  }

  /**
   Any number of tunnels, no request passed over so far, and one whose client can poll: that
   client may pass over a pending request without any further one coming in, exactly if the
   number that this commit assigns is not above its last one and every pending one.
   */
  lemma PassedOverExactly(s: Server, tid: string, id: string, own: string)
    requires Promises(s) && InOrder(s) && tid in s.visits && tid in s.tunnels && Unused(s, id)
    requires Reachable(s, own)
    ensures MayPassOver(Commit(s, tid, id), own) <==> !Above(s, tid)
  {
    var u := Commit(s, tid, id);
    CommitPromises(s, tid, id);
    if Above(s, tid) {
      CommitInOrder(s, tid, id);
      InOrderStays(u, own);
    } else {
      CommitOvertakes(s, tid, id, u, own);
    }
  }

  lemma {:induction false} LongerThanAll(keys: set<string>) returns (n: nat)
    ensures forall x :: x in keys ==> |x| < n
  {
    if keys == {} {
      n := 0;
    } else {
      var x :| x in keys;
      var m := LongerThanAll(keys - {x});
      n := if |x| < m then m else |x| + 1;
    }
  }

  lemma Drawn(keys: set<string>) returns (x: string)
    ensures x !in keys
  {
    var n := LongerThanAll(keys);
    x := seq(n, _ => 'f');
  }

  /** The same where no tunnel can be polled any more, since another may be created. */
  lemma PassedOverSomewhere(s: Server, tid: string, id: string)
    requires Promises(s) && InOrder(s) && tid in s.visits && tid in s.tunnels && Unused(s, id)
    ensures (exists own :: MayPassOver(Commit(s, tid, id), own)) <==> !Above(s, tid)
  {
    var u := Commit(s, tid, id);
    CommitPromises(s, tid, id);
    if Above(s, tid) {
      CommitInOrder(s, tid, id);
      forall own ensures !MayPassOver(u, own) {
        InOrderStays(u, own);
      }
    } else {
      var own := Drawn(u.tunnels.Keys);
      var v := Apply(u, Creates(own, 0));
      CommitOvertakes(s, tid, id, v, own);
      PassOverPrepend(u, Creates(own, 0), own);
    }
  }

  // ---------------------------------------------------------------------------
  // Examples

  /** Runs without any condition on request ids. */
  ghost predicate Steps(s: Server, es: seq<Event>, t: Server)
    decreases |es|
  {
    if es == [] then s == t
    else Enabled(s, es[0]) && Steps(Apply(s, es[0]), es[1..], t)
  }

  lemma StepsPrepend(s: Server, e: Event, es: seq<Event>, t: Server)
    requires Enabled(s, e) && Steps(Apply(s, e), es, t)
    ensures Steps(s, [e] + es, t)
  {
    assert ([e] + es)[1..] == es;
  }

  lemma {:induction false} StepsAppend(s: Server, es: seq<Event>, t: Server, fs: seq<Event>, u: Server)
    requires Steps(s, es, t) && Steps(t, fs, u)
    ensures Steps(s, es + fs, u)
    decreases |es|
  {
    if es == [] {
      assert es + fs == fs;
    } else {
      StepsAppend(Apply(s, es[0]), es[1..], t, fs, u);
      StepsPrepend(s, es[0], es[1..] + fs, u);
      assert [es[0]] + (es[1..] + fs) == es + fs;
    }
  }

  lemma TwoSteps(s: Server, d: Event, e: Event)
    requires Enabled(s, d) && Enabled(Apply(s, d), e)
    ensures Steps(s, [d, e], Apply(Apply(s, d), e))
  {
    var t := Apply(Apply(s, d), e);
    assert Steps(t, [], t);
    StepsPrepend(Apply(s, d), e, [], t);
    StepsPrepend(s, d, [e], t);
    assert [d] + [e] == [d, e];
  }

  lemma SingleRequest(r: Request)
    ensures Without([r], r.id) == [] && Has([r], r.id) && Find([r], r.id) == r
    ensures forall q: Request :: q.id == r.id ==> Set([r], q) == [q]
    ensures forall q: Request :: q.id != r.id ==> Set([r], q) == [r, q]
  {
    assert r in [r];
    assert [r][1..] == [];
  }

  lemma OneVisitor() returns (s: Server)
    ensures Steps(STARTED, [Creates("t", 3600_000), Visits("t")], s)
    ensures s == STARTED.(tunnels := map["t" := Tunnel(3600_000, 0)], live := {"t"}, visits := multiset{"t"})
  {
    TwoSteps(STARTED, Creates("t", 3600_000), Visits("t"));
    s := Apply(Apply(STARTED, Creates("t", 3600_000)), Visits("t"));
  }

  /** Two visitors of one tunnel, both suspended. */
  lemma TwoVisitors() returns (s: Server)
    ensures Steps(STARTED, [Creates("t", 3600_000), Visits("t")] + [Visits("t")], s)
    ensures s == STARTED.(tunnels := map["t" := Tunnel(3600_000, 0)], live := {"t"}, visits := multiset{"t", "t"})
  {
    var r := OneVisitor();
    s := Apply(r, Visits("t"));
    assert Steps(s, [], s);
    StepsPrepend(r, Visits("t"), [], s);
    assert [Visits("t")] + [] == [Visits("t")];
    StepsAppend(STARTED, [Creates("t", 3600_000), Visits("t")], r, [Visits("t")], s);
  }

  lemma TwoCommits(s: Server) returns (t: Server)
    requires s == STARTED.(tunnels := map["t" := Tunnel(3600_000, 0)], live := {"t"}, visits := multiset{"t", "t"})
    ensures Steps(s, [Commits("t", "x"), Commits("t", "x")], t)
    ensures t.pending == [Request("x", 1, 0, "t")] && t.calls == 2 && t.resolves == multiset{} && t.now == 0
    ensures t.timers == map[0 := Timer("x", 30_000), 1 := Timer("x", 30_000)]
  {
    TwoSteps(s, Commits("t", "x"), Commits("t", "x"));
    SingleRequest(Request("x", 0, 0, "t"));
    t := Apply(Apply(s, Commits("t", "x")), Commits("t", "x"));
  }

  lemma BothTimers(s: Server) returns (es: seq<Event>, t: Server)
    requires s.pending == [Request("x", 1, 0, "t")] && s.calls == 2 && s.resolves == multiset{} && s.now == 0
    requires s.timers == map[0 := Timer("x", 30_000), 1 := Timer("x", 30_000)]
    ensures Steps(s, es, t) && t.calls == 2 && t.timers == map[]
    ensures t.resolves[0] == 1 && t.resolves[1] == 0
  {
    var u := Apply(s, Ticks(30_000));
    SingleRequest(Request("x", 1, 0, "t"));
    TwoSteps(u, Fires(0), Fires(1));
    var v := Apply(u, Fires(0));
    assert v.pending == [] && v.timers == map[1 := Timer("x", 30_000)];
    t := Apply(v, Fires(1));
    assert t.timers == map[];
    StepsPrepend(s, Ticks(30_000), [Fires(0), Fires(1)], t);
    es := [Ticks(30_000)] + [Fires(0), Fires(1)];
  }

  /**
   If two visitors were given the same id, the first timer answers the first visitor and
   removes the request of the second, who is never answered although both timers fired.
   */
  lemma ReusedId() returns (es: seq<Event>, t: Server)
    ensures Steps(STARTED, es, t) && t.calls == 2 && t.timers == map[]
    ensures t.resolves[0] == 1 && t.resolves[1] == 0
  {
    var es1 := [Creates("t", 3600_000), Visits("t")] + [Visits("t")];
    var r := TwoVisitors();
    var s := TwoCommits(r);
    var fs;
    fs, t := BothTimers(s);
    StepsAppend(STARTED, es1, r, [Commits("t", "x"), Commits("t", "x")], s);
    StepsAppend(STARTED, es1 + [Commits("t", "x"), Commits("t", "x")], s, fs, t);
    es := es1 + [Commits("t", "x"), Commits("t", "x")] + fs;
  }

  lemma TwoTunnels() returns (s: Server)
    ensures Steps(STARTED, [Creates("a", 3600_000), Creates("b", 3600_000)] + [Visits("a"), Visits("b")], s)
    ensures s == STARTED.(tunnels := map["a" := Tunnel(3600_000, 0), "b" := Tunnel(3600_000, 0)],
                          live := {"a", "b"}, visits := multiset{"a", "b"})
  {
    var r := TwoCreated();
    s := TwoVisits(r);
    StepsAppend(STARTED, [Creates("a", 3600_000), Creates("b", 3600_000)], r, [Visits("a"), Visits("b")], s);
  }

  lemma TwoCreated() returns (r: Server)
    ensures Steps(STARTED, [Creates("a", 3600_000), Creates("b", 3600_000)], r)
    ensures r == STARTED.(tunnels := map["a" := Tunnel(3600_000, 0), "b" := Tunnel(3600_000, 0)], live := {"a", "b"})
  {
    var d, e := Creates("a", 3600_000), Creates("b", 3600_000);
    TwoSteps(STARTED, d, e);
    r := Apply(Apply(STARTED, d), e);
  }

  lemma TwoVisits(r: Server) returns (s: Server)
    requires r.live == {"a", "b"} && r.now == 0 && r.visits == multiset{}
    requires r.tunnels == map["a" := Tunnel(3600_000, 0), "b" := Tunnel(3600_000, 0)]
    ensures Steps(r, [Visits("a"), Visits("b")], s) && s == r.(visits := multiset{"a", "b"})
  {
    TwoSteps(r, Visits("a"), Visits("b"));
    s := Apply(Apply(r, Visits("a")), Visits("b"));
  }

  lemma TwoRequests(s: Server) returns (t: Server)
    requires s == STARTED.(tunnels := map["a" := Tunnel(3600_000, 0), "b" := Tunnel(3600_000, 0)],
                           live := {"a", "b"}, visits := multiset{"a", "b"})
    ensures Steps(s, [Commits("a", "x"), Commits("b", "y")], t)
    ensures t.pending == [Request("x", 0, 0, "a"), Request("y", 1, 0, "b")]
    ensures t.seqs == map["x" := 1, "y" := 1] && t.last == 0 && t.got == [] && t.poll == None
    ensures t.now == 0 && t.live == {"a", "b"} && "b" in t.tunnels && t.tunnels["b"].expiresAt == 3600_000
  {
    TwoSteps(s, Commits("a", "x"), Commits("b", "y"));
    SingleRequest(Request("x", 0, 0, "a"));
    t := Apply(Apply(s, Commits("a", "x")), Commits("b", "y"));
  }

  /** The client of tunnel b polls once, and then again. */
  lemma PollSecond(s: Server) returns (t: Server)
    requires s.pending == [Request("x", 0, 0, "a"), Request("y", 1, 0, "b")]
    requires s.seqs == map["x" := 1, "y" := 1] && s.last == 0 && s.got == [] && s.poll == None
    requires s.now == 0 && "b" in s.live && "b" in s.tunnels && s.tunnels["b"].expiresAt == 3600_000
    ensures Steps(s, [PollBegins("b"), PollScans], t) && t.got == [Delivery(1, 0, "a")] && t.last == 1
    ensures Scan(t.pending, t.seqs, t.last) == None
    ensures Request("y", 1, 0, "b") in t.pending && !Received(t, 1)
  {
    var x, y := Request("x", 0, 0, "a"), Request("y", 1, 0, "b");
    TwoSteps(s, PollBegins("b"), PollScans);
    t := Apply(Apply(s, PollBegins("b")), PollScans);
    assert [x, y][1..] == [y] && [y][1..] == [];
    assert Scan([x, y], t.seqs, 1) == Scan([y], t.seqs, 1) == Scan([], t.seqs, 1);
  }

  lemma SharedRun() returns (t: Server)
    ensures Steps(STARTED, SharedEvents(), t) && t.got == [Delivery(1, 0, "a")] && t.last == 1
    ensures Scan(t.pending, t.seqs, t.last) == None
    ensures Request("y", 1, 0, "b") in t.pending && !Received(t, 1)
  {
    var es1 := [Creates("a", 3600_000), Creates("b", 3600_000)] + [Visits("a"), Visits("b")];
    var es2 := [Commits("a", "x"), Commits("b", "y")];
    var r := TwoTunnels();
    var s := TwoRequests(r);
    t := PollSecond(s);
    StepsAppend(STARTED, es1, r, es2, s);
    StepsAppend(STARTED, es1 + es2, s, [PollBegins("b"), PollScans], t);
  }

  function SharedEvents(): (es: seq<Event>)
    ensures forall e :: e in es && e.PollBegins? ==> e.tid == "b"
  {
    [Creates("a", 3600_000), Creates("b", 3600_000)] + [Visits("a"), Visits("b")]
    + [Commits("a", "x"), Commits("b", "y")] + [PollBegins("b"), PollScans]
  }

  /**
   With two tunnels the client of one is handed the request of the other, and its own
   request, which has the same number, is passed over.
   */
  lemma SharedPending() returns (es: seq<Event>, t: Server)
    ensures Steps(STARTED, es, t) && forall e :: e in es && e.PollBegins? ==> e.tid == "b"
    ensures t.got == [Delivery(1, 0, "a")] && t.last == 1
    ensures Scan(t.pending, t.seqs, t.last) == None
    ensures exists r :: r in t.pending && r.tid == "b" && !Received(t, r.call)
  {
    es := SharedEvents();
    t := SharedRun();
    var y := Request("y", 1, 0, "b");
    assert y in t.pending && y.tid == "b" && !Received(t, y.call);
  }
}
