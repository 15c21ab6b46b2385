/**
 What holds over whole runs of the browser lease pool: every interleaving of acquires,
 drives, releases and the sweeper between start() and stop().
 */
module PoolRuns {
  import opened PoolModel
  import opened Options

  /** t is reached from s by the steps es. */
  ghost predicate Runs(s: Pool, es: seq<Event>, t: Pool)
    decreases |es|
  {
    if es == [] then s == t
    else Registered(s) && Enabled(s, es[0]) && Runs(Apply(s, es[0]), es[1..], t)
  }

  /** Partition, session bookkeeping and sweep progress hold in every reachable state. */
  lemma {:induction false} RunKeepsInv(s: Pool, es: seq<Event>, t: Pool)
    requires Inv(s) && Runs(s, es, t)
    ensures Inv(t)
    decreases |es|
  {
    if es != [] {
      StepInv(s, es[0]);
      RunKeepsInv(Apply(s, es[0]), es[1..], t);
    }
  }

  lemma StepSize(s: Pool, e: Event)
    requires Registered(s) && Enabled(s, e)
    ensures Apply(s, e).size == s.size
  {
  }

  lemma {:induction false} RunKeepsSize(s: Pool, es: seq<Event>, t: Pool)
    requires Runs(s, es, t)
    ensures t.size == s.size
    decreases |es|
  {
    if es != [] {
      StepSize(s, es[0]);
      RunKeepsSize(Apply(s, es[0]), es[1..], t);
    }
  }

  // ---------------------------------------------------------------------------
  // First in, first out

  /** The slots that the acquires of a run took, in order; `issued` tells which lease is on which slot. */
  function Taken(es: seq<Event>, issued: map<string, Issue>): seq<nat> {
    if es == [] then []
    else
      (if es[0].TakeSlot? && es[0].id in issued then [issued[es[0].id].lease.slot] else []) + Taken(es[1..], issued)
  }

  /** The slots that the failed injections and successful resets of a run queued, in order. */
  function Queued(es: seq<Event>, issued: map<string, Issue>): seq<nat> {
    if es == [] then []
    else
      (if (es[0].InjectionFailed? || es[0].ResetSucceeded?) && es[0].id in issued
       then [issued[es[0].id].lease.slot] else []) + Queued(es[1..], issued)
  }

  lemma StepIssue(s: Pool, e: Event)
    requires Registered(s) && Enabled(s, e)
    ensures forall id :: id in s.issued ==> id in Apply(s, e).issued && Apply(s, e).issued[id] == s.issued[id]
  {
  }

  lemma {:induction false} IssueStays(s: Pool, es: seq<Event>, t: Pool)
    requires Runs(s, es, t)
    ensures forall id :: id in s.issued ==> id in t.issued && t.issued[id] == s.issued[id]
    decreases |es|
  {
    if es == [] {
    } else {
      StepIssue(s, es[0]);
      IssueStays(Apply(s, es[0]), es[1..], t);
    }
  }

  /** What a step takes comes from the front of the queue, and what it queues goes to the end. */
  lemma StepFifo(s: Pool, e: Event, issued: map<string, Issue>)
    requires Registered(s) && Enabled(s, e)
    requires forall id :: id in Apply(s, e).issued ==> id in issued && issued[id] == Apply(s, e).issued[id]
    ensures s.free + Queued([e], issued) == Taken([e], issued) + Apply(s, e).free
  {
    StepIssue(s, e);
    assert [e][1..] == [];
    match e
    case TakeSlot(id, domain, jar, now) => assert s.free == [s.free[0]] + s.free[1..];
    case Release(lease) => ReleaseQueue(s, lease);
    case SweepAdvances => SweepQueue(s);
    case _ =>
  }

  lemma FifoJoin(f: seq<nat>, p: seq<nat>, q: seq<nat>, x: seq<nat>, y: seq<nat>, g: seq<nat>, h: seq<nat>)
    requires f + p == x + g && g + q == y + h
    ensures f + (p + q) == (x + y) + h
  {
    assert f + (p + q) == (f + p) + q == x + (g + q);
  }

  lemma FifoCons(es: seq<Event>, issued: map<string, Issue>)
    requires es != []
    ensures Taken(es, issued) == Taken([es[0]], issued) + Taken(es[1..], issued)
    ensures Queued(es, issued) == Queued([es[0]], issued) + Queued(es[1..], issued)
  {
    assert [es[0]][1..] == [];
  }

  /**
   Slots are taken in the order in which they were queued: in every run, those queued at its
   start and then those that it queues are the ones that it takes and then those queued at its end.
   */
  lemma {:induction false} FirstInFirstOut(s: Pool, es: seq<Event>, t: Pool)
    requires Runs(s, es, t)
    ensures s.free + Queued(es, t.issued) == Taken(es, t.issued) + t.free
    decreases |es|
  {
    if es == [] {
    } else {
      var u := Apply(s, es[0]);
      IssueStays(u, es[1..], t);
      StepFifo(s, es[0], t.issued);
      FirstInFirstOut(u, es[1..], t);
      FifoCons(es, t.issued);
      FifoJoin(s.free, Queued([es[0]], t.issued), Queued(es[1..], t.issued),
               Taken([es[0]], t.issued), Taken(es[1..], t.issued), u.free, t.free);
    }
  }

  // ---------------------------------------------------------------------------
  // Conservation of slots

  ghost function Elements(q: seq<nat>): set<nat> {
    set k | k in q
  }

  lemma {:induction false} DistinctSize(q: seq<nat>)
    requires forall i, j :: 0 <= i < j < |q| ==> q[i] != q[j]
    ensures |Elements(q)| == |q|
  {
    if q == [] {
      assert Elements(q) == {};
    } else {
      var rest := q[1..];
      DistinctSize(rest);
      assert q == [q[0]] + rest;
      assert q[0] !in rest;
      assert Elements(q) == Elements(rest) + {q[0]};
    }
  }

  lemma {:induction false} InjectiveSize(m: map<string, nat>)
    requires forall i, j :: i in m && j in m && m[i] == m[j] ==> i == j
    ensures |m.Values| == |m|
    decreases |m|
  {
    if |m| == 0 {
      assert m.Values == {};
    } else {
      var id :| id in m;
      var rest := m - {id};
      assert m.Keys == rest.Keys + {id};
      InjectiveSize(rest);
      ValuesWithout(m, id);
    }
  }

  lemma ValuesWithout(m: map<string, nat>, id: string)
    requires id in m && forall i, j :: i in m && j in m && m[i] == m[j] ==> i == j
    ensures var rest := m - {id}; m[id] !in rest.Values && m.Values == rest.Values + {m[id]}
  {
    var rest := m - {id};
    forall v | v in m.Values ensures v in rest.Values + {m[id]} {
      var j :| j in m && m[j] == v;
      assert j == id || (j in rest && rest[j] == v);
    }
    forall v | v in rest.Values ensures v in m.Values {
      var j :| j in rest && rest[j] == v;
      assert j in m && m[j] == v;
    }
  }

  lemma BelowSize(n: nat)
    ensures |Elements(Upto(n))| == n
    ensures forall k: nat :: k in Elements(Upto(n)) <==> k < n
  {
    var q := Upto(n);
    assert forall i :: 0 <= i < |q| ==> q[i] == i;
    DistinctSize(q);
    forall k: nat | k < n ensures k in q {
      assert q[k] == k;
    }
  }

  lemma ThreePartsSize<T>(a: set<T>, b: set<T>, c: set<T>)
    requires a !! b !! c
    ensures |a + b + c| == |a| + |b| + |c|
  {
    assert |a + b| == |a| + |b|;
    assert (a + b) !! c;
  }

  /** The numbers of queued, held and drained slots add up to the size. */
  lemma PartitionCounts(size: nat, free: seq<nat>, drained: set<nat>, held: map<string, nat>)
    requires Partition(size, free, drained, held)
    ensures |free| + |held| + |drained| == size
  {
    DistinctSize(free);
    InjectiveSize(held);
    BelowSize(size);
    PartitionSets(size, free, drained, held);
    ThreePartsSize(Elements(free), held.Values, drained);
  }

  lemma PartitionSets(size: nat, free: seq<nat>, drained: set<nat>, held: map<string, nat>)
    requires Partition(size, free, drained, held)
    ensures Elements(free) !! held.Values !! drained
    ensures Elements(Upto(size)) == Elements(free) + held.Values + drained
  {
    BelowSize(size);
    var all, parts := Elements(Upto(size)), Elements(free) + held.Values + drained;
    assert forall k: nat :: k in parts ==> k < size;
    assert forall k: nat :: k in all ==> k in parts;
  }

  lemma HeldSize(s: Pool)
    requires Registered(s)
    ensures |Held(s)| == |s.leases| + |s.acquiring| + |s.resetting|
  {
    var l, a, r := s.leases.Keys, s.acquiring.Keys, s.resetting.Keys;
    ThreePartsSize(l, a, r);
    HeldKeys(s);
  }

  lemma HeldKeys(s: Pool)
    requires Registered(s)
    ensures Held(s).Keys == s.leases.Keys + s.acquiring.Keys + s.resetting.Keys
  {
  }

  /**
   In every reachable state no slot is held by two leases, none is queued twice or queued
   while held, and status()'s busy count is the slots in use plus the drained ones.
   */
  lemma SlotsConserved(size: nat, leaseTtl: int, es: seq<Event>, t: Pool)
    requires Runs(Started(size, leaseTtl), es, t)
    ensures Inv(t) && t.size == size
    ensures forall i, j :: i in t.leases && j in t.leases && t.leases[i].slot == t.leases[j].slot ==> i == j
    ensures forall i, j :: 0 <= i < j < |t.free| ==> t.free[i] != t.free[j]
    ensures forall id :: id in t.leases ==> t.leases[id].slot < size && t.leases[id].slot !in t.free
    ensures size - |t.free| == |t.leases| + |t.acquiring| + |t.resetting| + |t.drained|
  {
    StartedInv(size, leaseTtl);
    RunKeepsInv(Started(size, leaseTtl), es, t);
    RunKeepsSize(Started(size, leaseTtl), es, t);
    PartitionCounts(t.size, t.free, t.drained, Held(t));
    HeldSize(t);
    LeasesHeld(t);
  }

  lemma LeasesHeld(t: Pool)
    requires Registered(t)
    ensures forall id :: id in t.leases ==> id in Held(t) && Held(t)[id] == t.leases[id].slot
  {
  }

  // ---------------------------------------------------------------------------
  // Isolation

  /** No injection of the run both failed and was applied by its container. */
  ghost predicate InjectionsClean(es: seq<Event>) {
    forall e :: e in es ==> !(e.InjectionFailed? && e.applied)
  }

  ghost predicate NothingLeft(s: Pool) {
    forall k :: 0 <= k < |s.leftover| ==> s.leftover[k] == map[]
  }

  lemma StepNothingLeft(s: Pool, e: Event)
    requires Inv(s) && Enabled(s, e) && NothingLeft(s) && !(e.InjectionFailed? && e.applied)
    ensures NothingLeft(Apply(s, e))
  {
    StepLeftover(s, e);
  }

  /** What is left in a container changes only by a failed injection, and by a reset. */
  lemma StepLeftover(s: Pool, e: Event)
    requires Registered(s) && Enabled(s, e) && !(e.InjectionFailed? && e.applied)
    ensures var t := Apply(s, e);
            && |t.leftover| == |s.leftover|
            && forall k :: 0 <= k < |t.leftover| ==> t.leftover[k] == s.leftover[k] || t.leftover[k] == map[]
  {
  }

  lemma {:induction false} RunNothingLeft(s: Pool, es: seq<Event>, t: Pool)
    requires Inv(s) && Runs(s, es, t) && NothingLeft(s) && InjectionsClean(es)
    ensures NothingLeft(t)
    decreases |es|
  {
    if es != [] {
      StepInv(s, es[0]);
      assert es[0] in es;
      StepNothingLeft(s, es[0]);
      assert forall e :: e in es[1..] ==> e in es;
      RunNothingLeft(Apply(s, es[0]), es[1..], t);
    }
  }

  /**
   Whenever drive's check passes, the container holds the lease's own jar and nothing
   else exactly when failed injections have left nothing there for another domain.
   */
  lemma IsolationExactly(s: Pool, lease: Lease)
    requires Inv(s) && lease.id in s.issued && s.issued[lease.id].lease == lease
    requires DriveAllowed(s, lease)
    ensures s.sessions[lease.slot] == map[lease.domain := s.issued[lease.id].jar]
            <==> s.leftover[lease.slot].Keys <= {lease.domain}
  {
    var left, jar := s.leftover[lease.slot], s.issued[lease.id].jar;
    var session, own := left[lease.domain := jar], map[lease.domain := jar];
    assert s.sessions[lease.slot] == session;
    if left.Keys <= {lease.domain} {
      assert session.Keys == own.Keys;
    } else {
      var d :| d in left.Keys && d != lease.domain;
      assert d in session && d !in own;
    }
  }

  /** With clean injections every drive that is allowed finds exactly its own jar. */
  lemma Isolation(size: nat, leaseTtl: int, es: seq<Event>, t: Pool, lease: Lease)
    requires Runs(Started(size, leaseTtl), es, t) && InjectionsClean(es)
    requires lease.id in t.issued && t.issued[lease.id].lease == lease && DriveAllowed(t, lease)
    ensures lease.slot < |t.sessions| && t.sessions[lease.slot] == map[lease.domain := t.issued[lease.id].jar]
  {
    StartedInv(size, leaseTtl);
    var s := Started(size, leaseTtl);
    RunKeepsInv(s, es, t);
    RunNothingLeft(s, es, t);
    IsolationExactly(t, lease);
  }

  /** A failed injection that was applied is not reset, and its jar meets the next lease. */
  lemma UncleanInjection() returns (es: seq<Event>, t: Pool, lease: Lease)
    ensures Runs(Started(1, 30), es, t)
    ensures lease.id in t.issued && t.issued[lease.id] == Issue(lease, "jar-b") && DriveAllowed(t, lease)
    ensures lease.domain == "y.example" && lease.slot == 0
    ensures t.sessions == [map["x.example" := "jar-a", "y.example" := "jar-b"]]
  {
    var s2 := UncleanFirst();
    var s4 := UncleanSecond(s2);
    var e1, e2 := TakeSlot("a", "x.example", "jar-a", 0), InjectionFailed("a", true);
    var e3, e4 := TakeSlot("b", "y.example", "jar-b", 1), InjectionOk("b");
    RunAppend(Started(1, 30), [e1, e2], s2, [e3, e4], s4);
    es, t, lease := [e1, e2] + [e3, e4], s4, Lease("b", 0, "y.example", 31);
  }

  lemma UncleanFirst() returns (t: Pool)
    ensures Runs(Started(1, 30), [TakeSlot("a", "x.example", "jar-a", 0), InjectionFailed("a", true)], t)
    ensures Inv(t) && t.size == 1 && t.leaseTtl == 30 && t.free == [0] && t.leases == map[] && "b" !in t.issued
    ensures t.sessions == [map["x.example" := "jar-a"]]
  {
    StartedInv(1, 30);
    var s := Started(1, 30);
    assert Upto(1) == [0];
    var u := Take(s, "a", "x.example", "jar-a", 0);
    TakeRegistered(s, "a", "x.example", "jar-a", 0);
    t := InjectFail(u, "a", true);
    var es := [TakeSlot("a", "x.example", "jar-a", 0), InjectionFailed("a", true)];
    TwoSteps(s, es[0], u, es[1], t);
    RunKeepsInv(s, es, t);
  }

  lemma UncleanSecond(s: Pool) returns (t: Pool)
    requires Registered(s) && s.size == 1 && s.leaseTtl == 30 && s.free == [0] && s.leases == map[] && "b" !in s.issued
    requires s.sessions == [map["x.example" := "jar-a"]]
    ensures Runs(s, [TakeSlot("b", "y.example", "jar-b", 1), InjectionOk("b")], t)
    ensures "b" in t.leases && "b" in t.issued
    ensures t.issued["b"] == Issue(Lease("b", 0, "y.example", 31), "jar-b")
    ensures t.sessions == [map["x.example" := "jar-a", "y.example" := "jar-b"]]
  {
    var u := Take(s, "b", "y.example", "jar-b", 1);
    TakeRegistered(s, "b", "y.example", "jar-b", 1);
    t := InjectOk(u, "b");
    TwoSteps(s, TakeSlot("b", "y.example", "jar-b", 1), u, InjectionOk("b"), t);
  }

  lemma TwoSteps(s: Pool, d: Event, u: Pool, e: Event, t: Pool)
    requires Registered(s) && Enabled(s, d) && u == Apply(s, d)
    requires Registered(u) && Enabled(u, e) && t == Apply(u, e)
    ensures Runs(s, [d, e], t)
  {
    assert Runs(t, [], t);
    RunPrepend(u, e, [], t);
    RunPrepend(s, d, [e], t);
    assert [e] + [] == [e] && [d] + [e] == [d, e];
  }

  lemma {:induction false} RunAppend(s: Pool, es: seq<Event>, t: Pool, fs: seq<Event>, u: Pool)
    requires Runs(s, es, t) && Runs(t, fs, u)
    ensures Runs(s, es + fs, u)
    decreases |es|
  {
    if es == [] {
      assert es + fs == fs;
    } else {
      RunAppend(Apply(s, es[0]), es[1..], t, fs, u);
      RunPrepend(s, es[0], es[1..] + fs, u);
      assert [es[0]] + (es[1..] + fs) == es + fs;
    }
  }

  lemma RunPrepend(s: Pool, e: Event, es: seq<Event>, t: Pool)
    requires Registered(s) && Enabled(s, e) && Runs(Apply(s, e), es, t)
    ensures Runs(s, [e] + es, t)
  {
    assert ([e] + es)[1..] == es;
  }

  // ---------------------------------------------------------------------------
  // What release and the sweeper guarantee

  /** A lease that is not registered and not being acquired is never registered again. */
  lemma {:induction false} ReleasedForever(s: Pool, es: seq<Event>, t: Pool, id: string)
    requires Inv(s) && Runs(s, es, t) && Retired(s, id)
    ensures Retired(t, id)
    decreases |es|
  {
    if es != [] {
      StepInv(s, es[0]);
      StepRetired(s, es[0], id);
      ReleasedForever(Apply(s, es[0]), es[1..], t, id);
    }
  }

  ghost predicate Retired(s: Pool, id: string) {
    id in s.issued && id !in s.leases && id !in s.acquiring
  }

  lemma StepRetired(s: Pool, e: Event, id: string)
    requires Registered(s) && Enabled(s, e) && Retired(s, id)
    ensures Retired(Apply(s, e), id)
  {
  }

  /** A slot whose reset failed is never queued or held again. */
  lemma {:induction false} DrainedForever(s: Pool, es: seq<Event>, t: Pool, slot: nat)
    requires Inv(s) && Runs(s, es, t) && slot in s.drained
    ensures slot in t.drained && slot !in t.free
    ensures forall id :: id in t.leases ==> t.leases[id].slot != slot
    ensures forall id :: id in t.acquiring ==> t.acquiring[id].lease.slot != slot
    decreases |es|
  {
    if es == [] {
      assert forall id :: id in Held(s) ==> Held(s)[id] == s.issued[id].lease.slot;
    } else {
      StepInv(s, es[0]);
      StepDrained(s, es[0], slot);
      DrainedForever(Apply(s, es[0]), es[1..], t, slot);
    }
  }

  lemma StepDrained(s: Pool, e: Event, slot: nat)
    requires Registered(s) && Enabled(s, e) && slot in s.drained
    ensures slot in Apply(s, e).drained
  {
  }

  /** A container's session does not change while its lease stays registered. */
  lemma {:induction false} SessionStable(s: Pool, es: seq<Event>, t: Pool, id: string)
    requires Inv(s) && Runs(s, es, t) && id in s.leases && id in t.leases
    ensures t.leases[id] == s.leases[id] && s.leases[id].slot < |s.sessions| && s.leases[id].slot < |t.sessions|
    ensures t.sessions[s.leases[id].slot] == s.sessions[s.leases[id].slot]
    decreases |es|
  {
    if es != [] {
      var e := es[0];
      StepInv(s, e);
      var u := Apply(s, e);
      if id !in u.leases {
        StepIssued(s, e, id);
        ReleasedForever(u, es[1..], t, id);
      }
      StepStable(s, e, id);
      SessionStable(u, es[1..], t, id);
    }
  }

  lemma StepIssued(s: Pool, e: Event, id: string)
    requires Registered(s) && Enabled(s, e) && id in s.leases
    ensures id in Apply(s, e).issued && id !in Apply(s, e).acquiring
  {
  }

  lemma StepStable(s: Pool, e: Event, id: string)
    requires Inv(s) && Enabled(s, e) && id in s.leases && id in Apply(s, e).leases
    ensures var u, slot := Apply(s, e), s.leases[id].slot;
            u.leases[id] == s.leases[id] && slot < |u.sessions| && u.sessions[slot] == s.sessions[slot]
  {
    OtherSlot(s, id);
    StepLease(s, e, id);
    StepSessions(s, e, s.leases[id].slot);
  }

  lemma OtherSlot(s: Pool, id: string)
    requires Inv(s) && id in s.leases
    ensures forall j :: j in s.acquiring ==> s.acquiring[j].lease.slot != s.leases[id].slot
    ensures forall j :: j in s.resetting ==> s.resetting[j].slot != s.leases[id].slot
    ensures s.leases[id].slot < s.size
  {
    assert Held(s)[id] == s.leases[id].slot;
    OthersElsewhere(s, id, s.leases[id].slot);
  }

  lemma StepLease(s: Pool, e: Event, id: string)
    requires Registered(s) && Enabled(s, e) && id in s.leases && id in Apply(s, e).leases
    ensures Apply(s, e).leases[id] == s.leases[id]
  {
  }

  lemma StepSessions(s: Pool, e: Event, slot: nat)
    requires Registered(s) && Enabled(s, e) && slot < s.size
    requires forall j :: j in s.acquiring ==> s.acquiring[j].lease.slot != slot
    requires forall j :: j in s.resetting ==> s.resetting[j].slot != slot
    ensures slot < |Apply(s, e).sessions| && Apply(s, e).sessions[slot] == s.sessions[slot]
  {
    match e
    case Release(lease) => ReleaseQueue(s, lease);
    case SweepAdvances => SweepQueue(s);
    case _ =>
  }

  lemma ReleaseQueue(s: Pool, lease: Lease)
    ensures var t := ReleaseBegin(s, lease); t.free == s.free && t.issued == s.issued && t.sessions == s.sessions
  {
  }

  lemma SweepQueue(s: Pool)
    requires s.sweep.Some? && s.sweep.value.rest != []
    ensures var t := SweepNext(s); t.free == s.free && t.issued == s.issued && t.sessions == s.sessions
  {
  }

  /** When a pass ends, none of the expired leases it started from is registered. */
  lemma SweepClears(s: Pool, l: Lease)
    requires Inv(s) && s.sweep.Some? && s.sweep.value.rest == []
    requires l in s.sweep.value.snapshot && s.sweep.value.now >= l.deadline
    ensures !DriveAllowed(s, l)
  {
  }
}
