/**
 The long-poll relay of `examples/tunnel/server.ts` as a step system: what the handler,
 the 30-second timers and the periodic sweep do between two awaits. The insertion-ordered
 Map of pending requests is a sequence with one entry an id. Tunnel objects outlive their
 entry in the tunnel map, because a suspended visitor keeps a reference to its tunnel.
 */
module TunnelModel {
  import opened Options

  datatype Tunnel = Tunnel(expiresAt: int, pollSeq: nat)

  /** A pending request to a tunnel; `call` names the visitor call whose promise it resolves. */
  datatype Request = Request(id: string, call: nat, timestamp: int, tid: string)

  datatype Timer = Timer(id: string, due: int)

  /** How a promise was first resolved. */
  datatype Answer = Relayed(status: int) | TimedOut

  /** A poll that has passed its tunnel check. */
  datatype Listening = Listening(tid: string, deadline: int)

  /** A request as the client received it: its number, the visitor call behind it, its tunnel. */
  datatype Delivery = Delivery(number: nat, call: nat, tid: string)

  datatype Server = Server(
    now: int,
    tunnels: map<string, Tunnel>,   // every tunnel object, by its id
    live: set<string>,              // the keys of the tunnel map
    pending: seq<Request>,
    seqs: map<string, nat>,
    timers: map<nat, Timer>,        // outstanding timers, by visitor call
    visits: multiset<string>,       // visitors suspended after their tunnel check
    calls: nat,                     // visitor calls so far
    resolves: multiset<nat>,        // calls of resolve(), by visitor call
    answers: map<nat, Answer>,
    poll: Option<Listening>,        // the client: its outstanding poll
    last: nat,                      // the client: last sequence number seen
    got: seq<Delivery>)             // the client: everything it received

  const PROMISE_TIMEOUT: int := 30_000
  const SWEEP_TIMEOUT: int := 60_000
  const POLL_TIMEOUT: int := 25_000

  // ---------------------------------------------------------------------------
  // The Map of pending requests

  predicate Has(pending: seq<Request>, id: string) {
    exists r :: r in pending && r.id == id
  }

  function Find(pending: seq<Request>, id: string): (r: Request)
    requires Has(pending, id)
    ensures r in pending && r.id == id
  {
    if pending[0].id == id then pending[0] else Find(pending[1..], id)
  }

  /** Map.delete */
  function Without(pending: seq<Request>, id: string): seq<Request> {
    if pending == [] then []
    else if pending[0].id == id then Without(pending[1..], id)
    else [pending[0]] + Without(pending[1..], id)
  }

  /** Map.set: an existing key keeps its place. */
  function Set(pending: seq<Request>, r: Request): seq<Request> {
    if pending == [] then [r]
    else if pending[0].id == r.id then [r] + pending[1..]
    else [pending[0]] + Set(pending[1..], r)
  }

  /** The requests that the sweep leaves, those not older than a minute. */
  function Fresh(pending: seq<Request>, now: int): seq<Request> {
    if pending == [] then []
    else (if now - pending[0].timestamp > SWEEP_TIMEOUT then [] else [pending[0]]) + Fresh(pending[1..], now)
  }

  /** The calls that the sweep resolves. */
  function Stale(pending: seq<Request>, now: int): multiset<nat> {
    if pending == [] then multiset{}
    else (if now - pending[0].timestamp > SWEEP_TIMEOUT then multiset{pending[0].call} else multiset{})
         + Stale(pending[1..], now)
  }

  /** The loop of the poll branch: the first pending request numbered above `after`. */
  function Scan(pending: seq<Request>, seqs: map<string, nat>, after: nat): Option<Request> {
    if pending == [] then None
    else if pending[0].id in seqs && seqs[pending[0].id] > after then Some(pending[0])
    else Scan(pending[1..], seqs, after)
  }

  // ---------------------------------------------------------------------------
  // The steps

  const STARTED: Server :=
    Server(0, map[], {}, [], map[], map[], multiset{}, 0, multiset{}, map[], None, 0, [])

  function Resolve(s: Server, call: nat, answer: Answer): Server {
    s.(resolves := s.resolves + multiset{call},
       answers := if call in s.answers then s.answers else s.answers[call := answer])
  }

  function Create(s: Server, tid: string, lifetime: int): Server {
    s.(tunnels := s.tunnels[tid := Tunnel(s.now + lifetime, 0)], live := s.live + {tid})
  }

  /** The visitor branch up to reading the body: 404, 410, or suspended. */
  function Visit(s: Server, tid: string): Server {
    if tid !in s.live || tid !in s.tunnels then s
    else if s.now > s.tunnels[tid].expiresAt then s.(live := s.live - {tid})
    else s.(visits := s.visits + multiset{tid})
  }

  /** The visitor branch after reading the body: number the request, publish it, set a timer. */
  function Commit(s: Server, tid: string, id: string): Server
    requires tid in s.tunnels
  {
    var t := s.tunnels[tid].(pollSeq := s.tunnels[tid].pollSeq + 1);
    s.(tunnels := s.tunnels[tid := t], visits := s.visits - multiset{tid},
       pending := Set(s.pending, Request(id, s.calls, s.now, tid)), seqs := s.seqs[id := t.pollSeq],
       timers := s.timers[s.calls := Timer(id, s.now + PROMISE_TIMEOUT)], calls := s.calls + 1)
  }

  /** The relay branch after reading the body; an id that is not pending changes nothing. */
  function Relay(s: Server, id: string, status: int): Server {
    if !Has(s.pending, id) then s
    else
      Resolve(s.(pending := Without(s.pending, id), seqs := s.seqs - {id}),
              Find(s.pending, id).call, Relayed(if status == 0 then 200 else status))
  }

  /** The timer set by a visitor call fires. */
  function Fire(s: Server, call: nat): Server
    requires call in s.timers
  {
    var id := s.timers[call].id;
    var t := s.(timers := s.timers - {call});
    if !Has(s.pending, id) then t
    else Resolve(t.(pending := Without(s.pending, id), seqs := s.seqs - {id}), call, TimedOut)
  }

  /** The answers after the sweep has resolved the stale calls. */
  function Answered(answers: map<nat, Answer>, stale: multiset<nat>): map<nat, Answer> {
    (map c | c in stale :: TimedOut) + answers
  }

  /** The periodic sweep over both maps; it leaves the sequence numbers. */
  function Sweep(s: Server): Server {
    var stale := Stale(s.pending, s.now);
    s.(live := (set t | t in s.live && !(t in s.tunnels && s.now > s.tunnels[t].expiresAt)),
       pending := Fresh(s.pending, s.now),
       resolves := s.resolves + stale,
       answers := Answered(s.answers, stale))
  }

  /** The tunnel tid is in the map and has not expired: a poll of it gets past 404 and 410. */
  predicate Reachable(s: Server, tid: string) {
    tid in s.live && tid in s.tunnels && s.now <= s.tunnels[tid].expiresAt
  }

  /** The poll branch up to its loop: 404, 410, or listening for 25 seconds. */
  function PollBegin(s: Server, tid: string): Server {
    if Reachable(s, tid) then s.(poll := Some(Listening(tid, s.now + POLL_TIMEOUT)))
    else if tid in s.live && tid in s.tunnels then s.(live := s.live - {tid})
    else s
  }

  /** One turn of the loop: the client asked for what comes after `last`, and takes what it gets. */
  function PollScan(s: Server): Server {
    match Scan(s.pending, s.seqs, s.last)
    case None => s
    case Some(r) =>
      if r.id in s.seqs then
        s.(poll := None, last := s.seqs[r.id], got := s.got + [Delivery(s.seqs[r.id], r.call, r.tid)])
      else s
  }

  datatype Event =
    | Creates(tid: string, lifetime: int)
    | Deletes(tid: string)
    | Visits(tid: string)
    | Commits(tid: string, id: string)
    | Relays(id: string, status: int)
    | Fires(call: nat)
    | Sweeps
    | PollBegins(tid: string)
    | PollScans
    | PollEnds
    | Ticks(delay: nat)

  /** The id of no outstanding timer: a request id is not reused within thirty seconds. */
  ghost predicate Unused(s: Server, id: string) {
    forall c :: c in s.timers ==> s.timers[c].id != id
  }

  ghost predicate Enabled(s: Server, e: Event) {
    match e
    case Creates(tid, _) => tid !in s.tunnels
    case Commits(tid, id) => tid in s.visits && tid in s.tunnels
    case Fires(call) => call in s.timers && s.now >= s.timers[call].due
    case PollScans => s.poll.Some? && s.now < s.poll.value.deadline
    case PollEnds => s.poll.Some?
    case _ => true
  }

  ghost function Apply(s: Server, e: Event): Server
    requires Enabled(s, e)
  {
    match e
    case Creates(tid, lifetime) => Create(s, tid, lifetime)
    case Deletes(tid) => s.(live := s.live - {tid})
    case Visits(tid) => Visit(s, tid)
    case Commits(tid, id) => Commit(s, tid, id)
    case Relays(id, status) => Relay(s, id, status)
    case Fires(call) => Fire(s, call)
    case Sweeps => Sweep(s)
    case PollBegins(tid) => PollBegin(s, tid)
    case PollScans => PollScan(s)
    case PollEnds => s.(poll := None)
    case Ticks(delay) => s.(now := s.now + delay)
  }

  // ---------------------------------------------------------------------------
  // Facts about the pending Map

  ghost predicate Distinct(pending: seq<Request>) {
    pending == [] || (!Has(pending[1..], pending[0].id) && Distinct(pending[1..]))
  }

  lemma {:induction false} WithoutMembers(pending: seq<Request>, id: string)
    ensures forall r :: r in Without(pending, id) <==> r in pending && r.id != id
  {
    if pending != [] {
      WithoutMembers(pending[1..], id);
      assert pending == [pending[0]] + pending[1..];
    }
  }

  lemma {:induction false} WithoutDistinct(pending: seq<Request>, id: string)
    requires Distinct(pending)
    ensures Distinct(Without(pending, id))
  {
    if pending != [] {
      WithoutDistinct(pending[1..], id);
      WithoutMembers(pending[1..], id);
      var p := [pending[0]] + Without(pending[1..], id);
      assert p[1..] == Without(pending[1..], id);
    }
  }

  lemma {:induction false} FreshMembers(pending: seq<Request>, now: int)
    ensures forall r :: r in Fresh(pending, now) <==> r in pending && !(now - r.timestamp > SWEEP_TIMEOUT)
  {
    if pending != [] {
      FreshMembers(pending[1..], now);
      assert pending == [pending[0]] + pending[1..];
    }
  }

  lemma DistinctCons(r: Request, rest: seq<Request>)
    requires Distinct(rest) && !Has(rest, r.id)
    ensures Distinct([r] + rest)
  {
    assert ([r] + rest)[1..] == rest;
  }

  lemma {:induction false} FreshDistinct(pending: seq<Request>, now: int)
    requires Distinct(pending)
    ensures Distinct(Fresh(pending, now))
  {
    if pending != [] {
      var head, rest := pending[0], Fresh(pending[1..], now);
      FreshDistinct(pending[1..], now);
      FreshMembers(pending[1..], now);
      if now - head.timestamp > SWEEP_TIMEOUT {
        assert Fresh(pending, now) == rest;
      } else {
        DistinctCons(head, rest);
      }
    }
  }

  /** Setting a new key appends. */
  lemma {:induction false} SetAppends(pending: seq<Request>, r: Request)
    requires !Has(pending, r.id)
    ensures Set(pending, r) == pending + [r]
  {
    if pending != [] {
      assert pending[0] in pending;
      assert forall q :: q in pending[1..] ==> q in pending;
      SetAppends(pending[1..], r);
      assert pending == [pending[0]] + pending[1..];
    }
  }

  lemma {:induction false} AppendDistinct(pending: seq<Request>, r: Request)
    requires Distinct(pending) && !Has(pending, r.id)
    ensures Distinct(pending + [r])
  {
    if pending == [] {
      assert [r][1..] == [];
    } else {
      assert forall q :: q in pending[1..] ==> q in pending;
      assert pending[0] in pending;
      AppendDistinct(pending[1..], r);
      assert (pending + [r])[1..] == pending[1..] + [r];
    }
  }

  ghost predicate PendingCall(pending: seq<Request>, call: nat) {
    exists r :: r in pending && r.call == call
  }

  /** Each call appears once among the pending requests. */
  ghost predicate CallsDistinct(pending: seq<Request>) {
    pending == [] || (!PendingCall(pending[1..], pending[0].call) && CallsDistinct(pending[1..]))
  }

  /** The sweep resolves the pending calls it removes, each once. */
  lemma {:induction false} StaleCount(pending: seq<Request>, now: int, call: nat)
    requires CallsDistinct(pending)
    ensures Stale(pending, now)[call]
            == if PendingCall(pending, call) && !PendingCall(Fresh(pending, now), call) then 1 else 0
  {
    if pending != [] {
      var head, rest := pending[0], pending[1..];
      StaleCount(rest, now, call);
      FreshMembers(rest, now);
      assert PendingCall(pending, call) <==> head.call == call || PendingCall(rest, call) by {
        assert pending == [head] + rest;
      }
      FreshCall(pending, now, call);
    }
  }

  lemma FreshCall(pending: seq<Request>, now: int, call: nat)
    requires pending != []
    ensures PendingCall(Fresh(pending, now), call)
            <==> (pending[0].call == call && !(now - pending[0].timestamp > SWEEP_TIMEOUT))
                 || PendingCall(Fresh(pending[1..], now), call)
  {
    var f, g := Fresh(pending, now), Fresh(pending[1..], now);
    assert forall r :: r in g ==> r in f;
    if !(now - pending[0].timestamp > SWEEP_TIMEOUT) {
      assert f == [pending[0]] + g && pending[0] in f;
    }
  }

  // ---------------------------------------------------------------------------
  // Every promise is resolved once

  /** A pending request has an outstanding timer of its own. */
  ghost predicate TimersKnown(s: Server) {
    && Distinct(s.pending)
    && (forall r :: r in s.pending ==> r.call in s.timers && s.timers[r.call].id == r.id)
    && (forall c, d :: c in s.timers && d in s.timers && s.timers[c].id == s.timers[d].id ==> c == d)
    && (forall c :: c in s.timers ==> c < s.calls)
  }

  /** resolve() has run once for every call that is not pending, and for no other. */
  ghost predicate ResolvedOnce(s: Server) {
    && (forall c: nat :: s.resolves[c] == if c < s.calls && !PendingCall(s.pending, c) then 1 else 0)
    && (forall c: nat :: c in s.answers <==> c in s.resolves)
  }

  ghost predicate Promises(s: Server) {
    TimersKnown(s) && ResolvedOnce(s)
  }

  lemma {:induction false} TimersDistinct(pending: seq<Request>, timers: map<nat, Timer>)
    requires Distinct(pending)
    requires forall r :: r in pending ==> r.call in timers && timers[r.call].id == r.id
    ensures CallsDistinct(pending)
  {
    if pending != [] {
      assert pending[0] in pending && forall r :: r in pending[1..] ==> r in pending;
      TimersDistinct(pending[1..], timers);
    }
  }

  lemma CommitPromises(s: Server, tid: string, id: string)
    requires Promises(s) && tid in s.tunnels && Unused(s, id)
    ensures Promises(Commit(s, tid, id)) && Commit(s, tid, id).pending == s.pending + [Request(id, s.calls, s.now, tid)]
  {
    var r, t := Request(id, s.calls, s.now, tid), Commit(s, tid, id);
    assert !Has(s.pending, id);
    SetAppends(s.pending, r);
    AppendDistinct(s.pending, r);
    assert TimersKnown(t);
    CommitResolved(s, t, r);
  }

  lemma CommitResolved(s: Server, t: Server, r: Request)
    requires ResolvedOnce(s) && r.call == s.calls && t.calls == s.calls + 1
    requires t.pending == s.pending + [r] && t.resolves == s.resolves && t.answers == s.answers
    ensures ResolvedOnce(t)
  {
    forall c: nat ensures PendingCall(t.pending, c) <==> PendingCall(s.pending, c) || c == s.calls {
      assert r in t.pending && forall q :: q in s.pending ==> q in t.pending;
    }
  }

  /** Resolving and removing the pending request of an id. */
  lemma ResolvePromises(s: Server, id: string, call: nat, answer: Answer)
    requires Promises(s) && Has(s.pending, id) && Find(s.pending, id).call == call
    ensures var u := Resolve(s.(pending := Without(s.pending, id), seqs := s.seqs - {id}), call, answer);
            Promises(u) && !PendingCall(u.pending, call)
  {
    var u := Resolve(s.(pending := Without(s.pending, id), seqs := s.seqs - {id}), call, answer);
    var r := Find(s.pending, id);
    WithoutDistinct(s.pending, id);
    WithoutMembers(s.pending, id);
    assert TimersKnown(u);
    WithoutCalls(s, id, call);
    assert call < s.calls && PendingCall(s.pending, call);
  }

  lemma WithoutCalls(s: Server, id: string, call: nat)
    requires TimersKnown(s) && Has(s.pending, id) && Find(s.pending, id).call == call
    ensures forall c: nat :: PendingCall(Without(s.pending, id), c) <==> PendingCall(s.pending, c) && c != call
  {
    var r := Find(s.pending, id);
    WithoutMembers(s.pending, id);
    forall c: nat ensures PendingCall(Without(s.pending, id), c) <==> PendingCall(s.pending, c) && c != call {
      if PendingCall(s.pending, c) && c != call {
        var q :| q in s.pending && q.call == c;
        assert q.id != id;
      }
    }
  }

  lemma FirePromises(s: Server, call: nat)
    requires Promises(s) && call in s.timers
    ensures Promises(Fire(s, call)) && call !in Fire(s, call).timers
  {
    var id := s.timers[call].id;
    if Has(s.pending, id) {
      assert Find(s.pending, id).call == call;
      ResolvePromises(s, id, call, TimedOut);
      var u := Resolve(s.(pending := Without(s.pending, id), seqs := s.seqs - {id}), call, TimedOut);
      assert Fire(s, call) == u.(timers := s.timers - {call});
    }
  }

  lemma SweepPromises(s: Server)
    requires Promises(s)
    ensures Promises(Sweep(s))
  {
    var t := Sweep(s);
    FreshDistinct(s.pending, s.now);
    FreshMembers(s.pending, s.now);
    assert TimersKnown(t);
    TimersDistinct(s.pending, s.timers);
    forall c: nat ensures t.resolves[c] == if c < t.calls && !PendingCall(t.pending, c) then 1 else 0 {
      StaleCount(s.pending, s.now, c);
      assert PendingCall(t.pending, c) ==> PendingCall(s.pending, c);
      assert PendingCall(s.pending, c) ==> c < s.calls;
    }
  }

  /** The steps that touch only tunnels, visitors before their commit, polls and the clock. */
  predicate Aside(e: Event) {
    e.Creates? || e.Deletes? || e.Visits? || e.PollBegins? || e.PollEnds? || e.Ticks?
  }

  lemma AsideLeaves(s: Server, e: Event)
    requires Enabled(s, e) && Aside(e)
    ensures var t := Apply(s, e);
            && t.pending == s.pending && t.seqs == s.seqs && t.timers == s.timers && t.calls == s.calls
            && t.resolves == s.resolves && t.answers == s.answers && t.last == s.last && t.got == s.got
  {
    match e
    case Visits(tid) => VisitLeaves(s, tid);
    case PollBegins(tid) => PollBeginLeaves(s, tid);
    case _ =>
  }

  lemma VisitLeaves(s: Server, tid: string)
    ensures Visit(s, tid).(live := s.live, visits := s.visits) == s
  {
  }

  lemma PollBeginLeaves(s: Server, tid: string)
    ensures PollBegin(s, tid).(live := s.live, poll := s.poll) == s
  {
  }

  lemma KeptPromises(s: Server, t: Server)
    requires Promises(s) && t.pending == s.pending && t.timers == s.timers && t.calls == s.calls
    requires t.resolves == s.resolves && t.answers == s.answers
    ensures Promises(t)
  {
  }

  lemma RelayPromises(s: Server, id: string, status: int)
    requires Promises(s)
    ensures Promises(Relay(s, id, status))
  {
    if Has(s.pending, id) {
      ResolvePromises(s, id, Find(s.pending, id).call, Relayed(if status == 0 then 200 else status));
    }
  }

  lemma StepPromises(s: Server, e: Event)
    requires Promises(s) && Enabled(s, e) && (e.Commits? ==> Unused(s, e.id))
    ensures Promises(Apply(s, e))
  {
    if Aside(e) {
      AsideLeaves(s, e);
      KeptPromises(s, Apply(s, e));
    } else {
      match e
      case Commits(tid, id) => CommitPromises(s, tid, id);
      case Relays(id, status) => RelayPromises(s, id, status);
      case Fires(call) => FirePromises(s, call);
      case Sweeps => SweepPromises(s);
      case PollScans => KeptPromises(s, PollScan(s));
    }
  }
}
