/**
 The server object of `examples/tunnel/server.ts`: three maps that the handler, the timers
 and the sweep update in place. Each method is the code between two awaits and names the
 step of the tunnel model that it is.
 */
module TunnelServer {
  import opened TunnelModel
  import opened Options

  lemma {:induction false} FreshAppend(p: seq<Request>, r: Request, now: int)
    ensures Fresh(p + [r], now) == Fresh(p, now) + Fresh([r], now)
  {
    if p == [] {
      assert p + [r] == [r];
    } else {
      var rest := p[1..];
      assert (p + [r])[1..] == rest + [r] && (p + [r])[0] == p[0];
      FreshAppend(rest, r, now);
      if !(now - p[0].timestamp > SWEEP_TIMEOUT) {
        AppendToTail(p[0], Fresh(rest, now), Fresh([r], now));
      }
    }
  }

  lemma AppendToTail(r: Request, p: seq<Request>, q: seq<Request>)
    ensures [r] + (p + q) == [r] + p + q
  {
  }

  lemma {:induction false} StaleAppend(p: seq<Request>, r: Request, now: int)
    ensures Stale(p + [r], now) == Stale(p, now) + Stale([r], now)
  {
    if p == [] {
      assert p + [r] == [r];
    } else {
      var rest := p[1..];
      assert (p + [r])[1..] == rest + [r] && (p + [r])[0] == p[0];
      StaleAppend(rest, r, now);
    }
  }

  lemma AnsweredOne(start: map<nat, Answer>, stale: multiset<nat>, call: nat)
    ensures var m := Answered(start, stale);
            Answered(start, stale + multiset{call}) == if call in m then m else m[call := TimedOut]
  {
  }

  /** One more request for the sweep: it is stale, or it is kept. */
  lemma OneMore(done: seq<Request>, r: Request, now: int)
    ensures Fresh(done + [r], now)
            == if now - r.timestamp > SWEEP_TIMEOUT then Fresh(done, now) else Fresh(done, now) + [r]
    ensures Stale(done + [r], now)
            == if now - r.timestamp > SWEEP_TIMEOUT then Stale(done, now) + multiset{r.call} else Stale(done, now)
  {
    assert [r][1..] == [] && Fresh([], now) == [] && Stale([], now) == multiset{};
    FreshAppend(done, r, now);
    StaleAppend(done, r, now);
  }

  lemma SweepFields(s: Server, live: set<string>)
    requires s.live <= s.tunnels.Keys
    requires live == set t | t in s.live && !(s.now > s.tunnels[t].expiresAt)
    ensures Sweep(s) == Server(s.now, s.tunnels, live, Fresh(s.pending, s.now), s.seqs, s.timers, s.visits, s.calls,
                               s.resolves + Stale(s.pending, s.now), Answered(s.answers, Stale(s.pending, s.now)),
                               s.poll, s.last, s.got)
  {
    assert live == Sweep(s).live;
  }

  lemma CommitFields(s: Server, tid: string, id: string, t: Tunnel)
    requires tid in s.tunnels && t == Tunnel(s.tunnels[tid].expiresAt, s.tunnels[tid].pollSeq + 1)
    ensures Commit(s, tid, id)
            == Server(s.now, s.tunnels[tid := t], s.live, Set(s.pending, Request(id, s.calls, s.now, tid)),
                      s.seqs[id := t.pollSeq], s.timers[s.calls := Timer(id, s.now + PROMISE_TIMEOUT)],
                      s.visits - multiset{tid}, s.calls + 1, s.resolves, s.answers, s.poll, s.last, s.got)
  {
  }

  /** The timer's request is pending exactly if its call has no answer yet, and is then answered with the 504. */
  lemma FireAnswers(s: Server, call: nat)
    requires Promises(s) && call in s.timers
    ensures Has(s.pending, s.timers[call].id) <==> call !in s.answers
    ensures Fire(s, call).answers == if call in s.answers then s.answers else s.answers[call := TimedOut]
  {
    var id := s.timers[call].id;
    if Has(s.pending, id) {
      assert Find(s.pending, id).call == call;
      assert PendingCall(s.pending, call);
    }
  }

  /** The sweep answers the requests that are older than a minute, and leaves every other answer. */
  lemma SweepAnswers(s: Server)
    requires Promises(s)
    ensures forall r :: r in Sweep(s).pending <==> r in s.pending && s.now - r.timestamp <= 60_000
    ensures forall c: nat :: c in Sweep(s).answers <==>
              c in s.answers || exists r :: r in s.pending && r.call == c && s.now - r.timestamp > 60_000
    ensures forall c: nat :: c in Sweep(s).answers ==>
              Sweep(s).answers[c] == if c in s.answers then s.answers[c] else TimedOut
  {
    FreshMembers(s.pending, s.now);
    forall c: nat ensures c in Stale(s.pending, s.now)
      <==> exists r :: r in s.pending && r.call == c && s.now - r.timestamp > SWEEP_TIMEOUT
    {
      StaleCalls(s.pending, s.now, c);
    }
  }

  lemma {:induction false} StaleCalls(pending: seq<Request>, now: int, call: nat)
    ensures call in Stale(pending, now)
            <==> exists r :: r in pending && r.call == call && now - r.timestamp > SWEEP_TIMEOUT
  {
    if pending != [] {
      StaleCalls(pending[1..], now, call);
      assert pending == [pending[0]] + pending[1..];
    }
  }

  class TunnelServer {
    var now: int
    var tunnels: map<string, Tunnel>
    var live: set<string>
    var pending: seq<Request>
    var seqs: map<string, nat>
    var timers: map<nat, Timer>
    var visits: multiset<string>
    var calls: nat
    ghost var resolves: multiset<nat>
    var answers: map<nat, Answer>
    // The client's side: its outstanding poll, its last number, and what it has received.
    var poll: Option<Listening>
    var last: nat
    ghost var got: seq<Delivery>

    ghost function State(): Server
      reads this
    {
      Server(now, tunnels, live, pending, seqs, timers, visits, calls, resolves, answers, poll, last, got)
    }

    constructor ()
      ensures State() == STARTED && Promises(State())
    {
      now, tunnels, live, pending, seqs := 0, map[], {}, [], map[];
      timers, visits, calls, resolves, answers := map[], multiset{}, 0, multiset{}, map[];
      poll, last, got := None, 0, [];
    }

    /** POST / with a timeout in seconds, which is cut to the greatest one allowed; the deadline. */
    method CreateTunnel(tid: string, timeout: int, maxTimeout: int) returns (expiresAt: int)
      requires tid !in tunnels
      modifies this
      ensures expiresAt == now + 1000 * (if timeout <= maxTimeout then timeout else maxTimeout)
      ensures tunnels == old(tunnels)[tid := Tunnel(expiresAt, 0)] && live == old(live) + {tid}
      ensures State() == Apply(old(State()), Creates(tid, expiresAt - now))
    {
      var lifetime := (if timeout < maxTimeout then timeout else maxTimeout) * 1000;
      expiresAt := now + lifetime;
      tunnels := tunnels[tid := Tunnel(expiresAt, 0)];
      live := live + {tid};
    }

    /** A visitor up to reading the body; the status when it is refused. */
    method VisitStart(tid: string) returns (refused: Option<int>)
      requires live <= tunnels.Keys
      modifies this
      ensures State() == Visit(old(State()), tid)
      ensures refused == if tid !in old(live) then Some(404)
                         else if now > tunnels[tid].expiresAt then Some(410) else None
      ensures visits == if refused == None then old(visits) + multiset{tid} else old(visits)
      ensures live == if refused == Some(410) then old(live) - {tid} else old(live)
    {
      if tid !in live {
        return Some(404);
      }
      if now > tunnels[tid].expiresAt {
        live := live - {tid};
        return Some(410);
      }
      visits := visits + multiset{tid};
      refused := None;
    }

    /** t.pollSeq++ and the sequence number of the request. */
    method Number(tid: string, id: string)
      requires tid in tunnels
      modifies this`tunnels, this`visits, this`seqs
      ensures tunnels == old(tunnels)[tid := Tunnel(old(tunnels)[tid].expiresAt, old(tunnels)[tid].pollSeq + 1)]
      ensures seqs == old(seqs)[id := old(tunnels)[tid].pollSeq + 1] && visits == old(visits) - multiset{tid}
    {
      var t := tunnels[tid];
      tunnels := tunnels[tid := t.(pollSeq := t.pollSeq + 1)];
      visits := visits - multiset{tid};
      seqs := seqs[id := t.pollSeq + 1];
    }

    /** The promise of the visitor: a pending request and its timer. */
    method Await(tid: string, id: string)
      modifies this`pending, this`timers, this`calls
      ensures pending == Set(old(pending), Request(id, old(calls), now, tid)) && calls == old(calls) + 1
      ensures timers == old(timers)[old(calls) := Timer(id, now + PROMISE_TIMEOUT)]
    {
      pending := Set(pending, Request(id, calls, now, tid));
      timers := timers[calls := Timer(id, now + PROMISE_TIMEOUT)];
      calls := calls + 1;
    }

    /** A visitor after reading the body: number the request, publish it, set its timer. */
    method Publish(tid: string, id: string)
      requires tid in tunnels
      modifies this
      ensures State() == Commit(old(State()), tid, id)
    {
      ghost var t := Tunnel(tunnels[tid].expiresAt, tunnels[tid].pollSeq + 1);
      CommitFields(State(), tid, id, t);
      Number(tid, id);
      Await(tid, id);
    }

    /** A visitor after reading the body; its promise is accounted for if no outstanding timer has the id. */
    method VisitCommit(tid: string, id: string) returns (call: nat)
      requires tid in tunnels
      modifies this
      ensures State() == Commit(old(State()), tid, id) && call == old(calls) && calls == call + 1
      ensures tunnels[tid].pollSeq == old(tunnels)[tid].pollSeq + 1 && seqs == old(seqs)[id := tunnels[tid].pollSeq]
      ensures tunnels[tid].expiresAt == old(tunnels)[tid].expiresAt
      ensures timers == old(timers)[call := Timer(id, now + 30_000)]
      ensures !Has(old(pending), id) ==> pending == old(pending) + [Request(id, call, now, tid)]
      ensures old(Promises(State()) && Unused(State(), id)) ==> Promises(State())
    {
      if !Has(pending, id) {
        SetAppends(pending, Request(id, calls, now, tid));
      }
      if Promises(State()) && Unused(State(), id) {
        CommitPromises(State(), tid, id);
      }
      call := calls;
      Publish(tid, id);
    }

    /** One pass of the poll branch over the pending requests. */
    method PollPass(after: nat) returns (found: Option<Request>)
      ensures found == Scan(pending, seqs, after)
      ensures found.Some? ==> found.value.id in seqs && seqs[found.value.id] > after
      ensures found.None? ==> forall r :: r in pending && r.id in seqs ==> seqs[r.id] <= after
      ensures found.Some? ==> exists i :: 0 <= i < |pending| && pending[i] == found.value &&
                                (forall r :: r in pending[..i] && r.id in seqs ==> seqs[r.id] <= after)
    {
      for i := 0 to |pending|
        invariant Scan(pending[i..], seqs, after) == Scan(pending, seqs, after)
        invariant forall r :: r in pending[..i] && r.id in seqs ==> seqs[r.id] <= after
      {
        assert pending[i..][1..] == pending[i + 1..];
        var r := pending[i];
        if r.id in seqs && seqs[r.id] > after {
          return Some(r);
        }
      }
      found := None;
    }

    /** A poll up to its loop; the status when it is refused. */
    method PollStart(tid: string) returns (refused: Option<int>)
      requires live <= tunnels.Keys
      modifies this`live, this`poll
      ensures State() == PollBegin(old(State()), tid)
      ensures refused == if tid !in old(live) then Some(404)
                         else if now > tunnels[tid].expiresAt then Some(410) else None
      ensures poll == if refused == None then Some(Listening(tid, now + 25_000)) else old(poll)
      ensures live == if refused == Some(410) then old(live) - {tid} else old(live)
    {
      if tid !in live {
        return Some(404);
      }
      if now > tunnels[tid].expiresAt {
        live := live - {tid};
        return Some(410);
      }
      poll := Some(Listening(tid, now + POLL_TIMEOUT));
      refused := None;
    }

    /** One turn of the loop, and the client taking the answer that it may bring. */
    method PollTurn() returns (found: Option<Request>)
      requires poll.Some? && now < poll.value.deadline
      modifies this`poll, this`last, this`got
      ensures State() == PollScan(old(State()))
      ensures found == Scan(pending, seqs, old(last))
      ensures found.Some? ==> found.value.id in seqs && last == seqs[found.value.id] && last > old(last)
      ensures found.Some? ==> got == old(got) + [Delivery(last, found.value.call, found.value.tid)] && poll == None
    {
      found := PollPass(last);
      if found.Some? {
        poll := None;
        last := seqs[found.value.id];
        got := got + [Delivery(last, found.value.call, found.value.tid)];
      }
    }

    /** The loop is over after 25 seconds, or the client has gone. */
    method PollStop()
      requires poll.Some?
      modifies this`poll
      ensures State() == old(State()).(poll := None)
    {
      poll := None;
    }

    /** resolve() of a visitor's promise: only the first call decides the answer. */
    method ResolveCall(call: nat, answer: Answer)
      modifies this`resolves, this`answers
      ensures State() == Resolve(old(State()), call, answer)
      ensures resolves == old(resolves) + multiset{call}
      ensures answers == if call in old(answers) then old(answers) else old(answers)[call := answer]
    {
      resolves := resolves + multiset{call};
      if call !in answers {
        answers := answers[call := answer];
      }
    }

    /** The relay branch after reading the body; false is its 404. */
    method RelayResponse(id: string, status: int) returns (ok: bool)
      modifies this
      ensures State() == Relay(old(State()), id, status) && ok == Has(old(pending), id)
      ensures old(Promises(State())) ==> Promises(State())
      ensures old(Promises(State())) && ok ==>
                var call := Find(old(pending), id).call;
                answers == old(answers)[call := Relayed(if status == 0 then 200 else status)]
      ensures forall r :: r in pending <==> r in old(pending) && r.id != id
      ensures seqs == if ok then old(seqs) - {id} else old(seqs)
    {
      if Promises(State()) {
        RelayPromises(State(), id, status);
      }
      WithoutMembers(pending, id);
      ok := Has(pending, id);
      if ok {
        Answer(id, Find(pending, id).call, Relayed(if status == 0 then 200 else status));
      }
    }

    /** The request of the id is no longer pending, and the call is answered. */
    method Answer(id: string, call: nat, answer: Answer)
      modifies this`pending, this`seqs, this`resolves, this`answers
      ensures var removed := old(State()).(pending := Without(old(pending), id), seqs := old(seqs) - {id});
              State() == Resolve(removed, call, answer)
    {
      pending := Without(pending, id);
      seqs := seqs - {id};
      ResolveCall(call, answer);
    }

    /** The timer of a visitor call. */
    method TimerFires(call: nat)
      requires call in timers
      modifies this
      ensures State() == Fire(old(State()), call) && call !in timers
      ensures old(Promises(State())) ==> Promises(State()) && call in answers
      ensures old(Promises(State())) ==>
                answers == if call in old(answers) then old(answers) else old(answers)[call := TimedOut]
    {
      if Promises(State()) {
        FirePromises(State(), call);
        FireAnswers(State(), call);
      }
      var id := timers[call].id;
      timers := timers - {call};
      if Has(pending, id) {
        Answer(id, call, TimedOut);
      }
    }

    /** The sweep's loop over the tunnels. */
    method SweepTunnels()
      requires live <= tunnels.Keys
      modifies this`live
      ensures live == set t | t in old(live) && !(now > tunnels[t].expiresAt)
    {
      var todo := live;
      while todo != {}
        invariant todo <= old(live) && live <= old(live)
        invariant forall t :: t in old(live) ==> (t in live <==> t in todo || !(now > tunnels[t].expiresAt))
        decreases |todo|
      {
        var t :| t in todo;
        if now > tunnels[t].expiresAt {
          live := live - {t};
        }
        todo := todo - {t};
      }
    }

    /** One pending request of the sweep, after those in done: a stale one is resolved, any other is kept. */
    method SweepRequest(done: seq<Request>, r: Request, kept: seq<Request>,
                        ghost start: map<nat, Answer>, ghost before: multiset<nat>)
      returns (left: seq<Request>)
      requires kept == Fresh(done, now)
      requires resolves == before + Stale(done, now) && answers == Answered(start, Stale(done, now))
      modifies this`resolves, this`answers
      ensures left == Fresh(done + [r], now)
      ensures resolves == before + Stale(done + [r], now) && answers == Answered(start, Stale(done + [r], now))
    {
      OneMore(done, r, now);
      left := kept;
      if now - r.timestamp > SWEEP_TIMEOUT {
        AnsweredOne(start, Stale(done, now), r.call);
        ResolveCall(r.call, TimedOut);
      } else {
        left := kept + [r];
      }
    }

    /** The sweep's loop over the pending requests. */
    method SweepPending()
      modifies this`pending, this`resolves, this`answers
      ensures pending == Fresh(old(pending), now)
      ensures resolves == old(resolves) + Stale(old(pending), now)
      ensures answers == Answered(old(answers), Stale(old(pending), now))
    {
      var done, kept := [], [];
      while |done| < |pending|
        invariant |done| <= |pending| && done == pending[..|done|] && pending == old(pending)
        invariant kept == Fresh(done, now)
        invariant resolves == old(resolves) + Stale(done, now)
        invariant answers == Answered(old(answers), Stale(done, now))
      {
        var r := pending[|done|];
        kept := SweepRequest(done, r, kept, old(answers), old(resolves));
        done := done + [r];
      }
      assert done == pending;
      pending := kept;
    }

    /** The periodic sweep. */
    method SweepAll()
      requires live <= tunnels.Keys
      modifies this
      ensures State() == Sweep(old(State()))
      ensures forall r :: r in pending <==> r in old(pending) && now - r.timestamp <= 60_000
      ensures forall t :: t in live <==> t in old(live) && now <= tunnels[t].expiresAt
      ensures old(Promises(State())) ==> Promises(State())
      ensures old(Promises(State())) ==> forall r :: r in old(pending) && now - r.timestamp > 60_000 ==>
                r.call in answers && (r.call !in old(answers) ==> answers[r.call] == TimedOut)
    {
      if Promises(State()) {
        SweepPromises(State());
        SweepAnswers(State());
      }
      FreshMembers(pending, now);
      SweepMaps();
    }

    method SweepMaps()
      requires live <= tunnels.Keys
      modifies this
      ensures State() == Sweep(old(State()))
    {
      ghost var before := State();
      SweepTunnels();
      SweepPending();
      SweepFields(before, live);
    }
  }
}
