/**
 The life of one tunnel of the relay: from its creation, through any run, it can be visited
 and polled until the moment it was given, and its requests are numbered from 1.
 */
module TunnelLife {
  import opened TunnelModel
  import opened Options

  /** t is reached from s by es. */
  ghost predicate Reaches(s: Server, es: seq<Event>, t: Server)
    decreases |es|
  {
    if es == [] then s == t else Enabled(s, es[0]) && Reaches(Apply(s, es[0]), es[1..], t)
  }

  /** How many of the steps publish a request to the tunnel. */
  function Published(es: seq<Event>, tid: string): nat {
    if es == [] then 0
    else (if es[0].Commits? && es[0].tid == tid then 1 else 0) + Published(es[1..], tid)
  }

  /** The tunnel object has this deadline and number. */
  ghost predicate Known(s: Server, tid: string, deadline: int, number: nat) {
    tid in s.tunnels && s.tunnels[tid] == Tunnel(deadline, number)
  }

  /** The tunnel is in the map, or its deadline has passed. */
  ghost predicate LiveUntil(s: Server, tid: string, deadline: int) {
    tid in s.live || s.now > deadline
  }

  lemma StepKnown(s: Server, e: Event, tid: string, deadline: int, number: nat)
    requires Known(s, tid, deadline, number) && Enabled(s, e)
    ensures Known(Apply(s, e), tid, deadline, number + Published([e], tid))
    ensures LiveUntil(s, tid, deadline) && e != Deletes(tid) ==> LiveUntil(Apply(s, e), tid, deadline)
  {
    assert [e][1..] == [];
    match e
    case Relays(id, status) => RelayTunnels(s, id, status);
    case Fires(call) => FireTunnels(s, call);
    case PollScans => ScanTunnels(s);
    case Sweeps => SweepTunnels(s, tid, deadline, number);
    case _ =>
  }

  lemma RelayTunnels(s: Server, id: string, status: int)
    ensures var t := Relay(s, id, status); t.tunnels == s.tunnels && t.live == s.live && t.now == s.now
  {
  }

  lemma FireTunnels(s: Server, call: nat)
    requires call in s.timers
    ensures var t := Fire(s, call); t.tunnels == s.tunnels && t.live == s.live && t.now == s.now
  {
  }

  lemma ScanTunnels(s: Server)
    ensures var t := PollScan(s); t.tunnels == s.tunnels && t.live == s.live && t.now == s.now
  {
  }

  lemma SweepTunnels(s: Server, tid: string, deadline: int, number: nat)
    requires Known(s, tid, deadline, number)
    ensures Known(Sweep(s), tid, deadline, number)
    ensures LiveUntil(s, tid, deadline) ==> LiveUntil(Sweep(s), tid, deadline)
  {
  }

  lemma {:induction false} RunKnown(s: Server, es: seq<Event>, t: Server, tid: string, deadline: int, number: nat)
    requires Known(s, tid, deadline, number) && Reaches(s, es, t)
    ensures Known(t, tid, deadline, number + Published(es, tid))
    ensures LiveUntil(s, tid, deadline) && Deletes(tid) !in es ==> LiveUntil(t, tid, deadline)
    decreases |es|
  {
    if es == [] {
    } else {
      StepKnown(s, es[0], tid, deadline, number);
      PublishedCons(es, tid);
      RunKnown(Apply(s, es[0]), es[1..], t, tid, deadline, number + Published([es[0]], tid));
      if Deletes(tid) !in es {
        DeletedLater(es, tid);
      }
    }
  }

  lemma PublishedCons(es: seq<Event>, tid: string)
    requires es != []
    ensures Published(es, tid) == Published([es[0]], tid) + Published(es[1..], tid)
  {
    assert [es[0]][1..] == [];
  }

  lemma DeletedLater(es: seq<Event>, tid: string)
    requires es != [] && Deletes(tid) !in es
    ensures es[0] != Deletes(tid) && Deletes(tid) !in es[1..]
  {
  }

  lemma CreatedKnown(s: Server, tid: string, lifetime: int)
    requires tid !in s.tunnels
    ensures var t := Apply(s, Creates(tid, lifetime));
            Known(t, tid, s.now + lifetime, 0) && LiveUntil(t, tid, s.now + lifetime)
  {
  }

  lemma NextNumber(t: Server, tid: string, id: string, deadline: int, number: nat)
    requires Known(t, tid, deadline, number) && Enabled(t, Commits(tid, id))
    ensures Apply(t, Commits(tid, id)).seqs == t.seqs[id := number + 1]
  {
  }

  /** Whether a step lets a visitor or a poll of the tunnel past 404 and 410, and what it changes otherwise. */
  lemma PastTheChecks(t: Server, tid: string, deadline: int, number: nat)
    requires Known(t, tid, deadline, number) && LiveUntil(t, tid, deadline)
    ensures Reachable(t, tid) <==> t.now <= deadline
    ensures t.now <= deadline ==> Visit(t, tid) == t.(visits := t.visits + multiset{tid})
    ensures t.now > deadline ==> Visit(t, tid) == t.(live := t.live - {tid})
    ensures t.now <= deadline ==> PollBegin(t, tid) == t.(poll := Some(Listening(tid, t.now + 25_000)))
    ensures t.now > deadline ==> PollBegin(t, tid) == t.(live := t.live - {tid})
  {
  }

  /**
   A tunnel created at time s.now that nobody deletes admits visitors and polls exactly up to
   s.now + lifetime, through any run from any state; after that it admits nobody.
   */
  lemma AdmitsUntilDeadline(s: Server, tid: string, lifetime: int, es: seq<Event>, t: Server)
    requires tid !in s.tunnels && Deletes(tid) !in es
    requires Reaches(Apply(s, Creates(tid, lifetime)), es, t)
    ensures Reachable(t, tid) <==> t.now <= s.now + lifetime
    ensures Visit(t, tid).visits == t.visits + multiset{tid} <==> t.now <= s.now + lifetime
    ensures t.now <= s.now + lifetime ==> PollBegin(t, tid).poll == Some(Listening(tid, t.now + 25_000))
    ensures t.now > s.now + lifetime ==> PollBegin(t, tid).poll == t.poll
  {
    var number := Published(es, tid);
    CreatedKnown(s, tid, lifetime);
    RunKnown(Apply(s, Creates(tid, lifetime)), es, t, tid, s.now + lifetime, 0);
    PastTheChecks(t, tid, s.now + lifetime, number);
    assert t.visits + multiset{tid} != t.visits by {
      assert (t.visits + multiset{tid})[tid] == t.visits[tid] + 1;
    }
  }

  /** The requests of a tunnel are numbered 1, 2, 3, ... in the order in which they are published. */
  lemma NumberedFromOne(s: Server, tid: string, lifetime: int, es: seq<Event>, t: Server, id: string)
    requires tid !in s.tunnels
    requires Reaches(Apply(s, Creates(tid, lifetime)), es, t) && Enabled(t, Commits(tid, id))
    ensures Apply(t, Commits(tid, id)).seqs == t.seqs[id := Published(es, tid) + 1]
  {
    CreatedKnown(s, tid, lifetime);
    RunKnown(Apply(s, Creates(tid, lifetime)), es, t, tid, s.now + lifetime, 0);
    NextNumber(t, tid, id, s.now + lifetime, Published(es, tid));
  }
}
