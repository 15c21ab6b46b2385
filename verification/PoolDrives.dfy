/**
 Drives of the browser lease pool that are still in flight: drive checks its lease, and then
 awaits POST /render, while the sweeper may release the lease and another caller take its
 container. A drive changes no part of the pool, so one that is sent in a state arrives in
 any state reached from it.
 */
module PoolDrives {
  import opened PoolModel
  import opened PoolRuns
  import opened Options

  /**
   What a request arriving at a container now may meet: the session, or what an injection or
   a reset that is in flight to the same container has already made of it.
   */
  ghost predicate MayMeet(s: Pool, slot: nat, session: Session) {
    || (slot < |s.sessions| && session == s.sessions[slot])
    || (exists id :: id in s.acquiring && s.acquiring[id].lease.slot == slot < |s.sessions|
                     && session == Inject(s.sessions[slot], s.acquiring[id]))
    || (exists id :: id in s.resetting && s.resetting[id].slot == slot)
  }

  ghost predicate Issued(s: Pool, lease: Lease) {
    lease.id in s.issued && s.issued[lease.id].lease == lease
  }

  /** The session that was injected for the lease. */
  ghost function Own(s: Pool, lease: Lease): Session
    requires Issued(s, lease)
  {
    map[lease.domain := s.issued[lease.id].jar]
  }

  /** A registered lease on the container has the domain and the jar of this one: it, or a later one. */
  ghost predicate Carried(s: Pool, lease: Lease)
    requires Registered(s) && Issued(s, lease)
  {
    exists m :: m in s.leases && s.leases[m].slot == lease.slot
                && s.leases[m].domain == lease.domain && s.issued[m].jar == s.issued[lease.id].jar
  }

  /** Where a slot is: queued, drained, or with the one id that holds it. */
  lemma SlotHolder(s: Pool, slot: nat) returns (holder: Option<string>)
    requires Inv(s) && slot < s.size
    ensures holder == None ==> slot in s.free || slot in s.drained
    ensures holder.Some? ==> holder.value in Held(s) && Held(s)[holder.value] == slot
    ensures forall id :: id in Held(s) && Held(s)[id] == slot ==> holder == Some(id)
  {
    if slot in s.free || slot in s.drained {
      holder := None;
    } else {
      var id :| id in Held(s) && Held(s)[id] == slot;
      holder := Some(id);
    }
  }

  lemma HeldSlots(s: Pool, id: string)
    requires Registered(s)
    ensures id in s.leases ==> id in Held(s) && Held(s)[id] == s.leases[id].slot
    ensures id in s.acquiring ==> id in Held(s) && Held(s)[id] == s.acquiring[id].lease.slot
    ensures id in s.resetting ==> id in Held(s) && Held(s)[id] == s.resetting[id].slot
  {
  }

  /** Only the holder of a slot has a request in flight that changes its container. */
  lemma OnlyHolder(s: Pool, slot: nat, holder: Option<string>, session: Session)
    requires Registered(s) && slot < s.size && MayMeet(s, slot, session)
    requires forall id :: id in Held(s) && Held(s)[id] == slot ==> holder == Some(id)
    requires holder.Some? ==> holder.value in s.leases
    ensures session == s.sessions[slot]
  {
    forall id ensures id in s.acquiring ==> s.acquiring[id].lease.slot != slot {
      HeldSlots(s, id);
    }
    forall id ensures id in s.resetting ==> s.resetting[id].slot != slot {
      HeldSlots(s, id);
    }
  }

  ghost predicate SureOfOwn(s: Pool, lease: Lease)
    requires Issued(s, lease)
  {
    forall session :: MayMeet(s, lease.slot, session) ==> session == Own(s, lease)
  }

  /** A container with nothing left over holds the session of its registered lease alone. */
  lemma LeaseSession(s: Pool, id: string)
    requires Inv(s) && NothingLeft(s) && id in s.leases
    ensures s.leases[id].slot < |s.sessions|
    ensures s.sessions[s.leases[id].slot] == map[s.leases[id].domain := s.issued[id].jar]
  {
    IsolationExactly(s, s.leases[id]);
  }

  lemma CarriedIsSure(s: Pool, lease: Lease)
    requires Inv(s) && NothingLeft(s) && Issued(s, lease) && Carried(s, lease)
    ensures SureOfOwn(s, lease)
  {
    var m :| m in s.leases && s.leases[m].slot == lease.slot
             && s.leases[m].domain == lease.domain && s.issued[m].jar == s.issued[lease.id].jar;
    LeaseSession(s, m);
    HeldSlots(s, m);
    var holder := SlotHolder(s, lease.slot);
    forall session | MayMeet(s, lease.slot, session) ensures session == Own(s, lease) {
      OnlyHolder(s, lease.slot, holder, session);
    }
  }

  lemma DrainedIsSure(s: Pool, lease: Lease)
    requires Inv(s) && Issued(s, lease) && lease.slot in s.drained && s.sessions[lease.slot] == Own(s, lease)
    ensures SureOfOwn(s, lease)
  {
    forall session | MayMeet(s, lease.slot, session) ensures session == Own(s, lease) {
      OnlyHolder(s, lease.slot, None, session);
    }
  }

  lemma SureIsCarried(s: Pool, lease: Lease)
    requires Inv(s) && NothingLeft(s) && Issued(s, lease) && SureOfOwn(s, lease) && lease.slot !in s.drained
    ensures Carried(s, lease)
  {
    var slot, none: Session := lease.slot, map[];
    var holder := SlotHolder(s, slot);
    assert MayMeet(s, slot, s.sessions[slot]) && s.sessions[slot] == Own(s, lease);
    assert none != Own(s, lease) by { assert lease.domain in Own(s, lease); }
    assert s.leftover[slot] == none;
    if holder.Some? {
      var id := holder.value;
      HeldSlots(s, id);
      assert id in s.resetting ==> MayMeet(s, slot, none);
      LeaseSession(s, id);
      assert s.leases[id].domain in s.sessions[slot];
    }
  }

  /**
   In runs with clean injections, a drive that passed its check and arrives later is sure to
   meet the session of its lease, exactly if by then a registered lease with the same domain
   and jar has the container, or the container is drained and still holds that very session.
   */
  lemma ArrivesExactly(size: nat, leaseTtl: int, es: seq<Event>, s: Pool, lease: Lease, fs: seq<Event>, t: Pool)
    requires Runs(Started(size, leaseTtl), es, s) && Runs(s, fs, t)
    requires InjectionsClean(es) && InjectionsClean(fs) && Issued(s, lease) && DriveAllowed(s, lease)
    ensures Inv(t) && Issued(t, lease) && Own(t, lease) == Own(s, lease) && lease.slot < |t.sessions|
    ensures SureOfOwn(t, lease)
            <==> Carried(t, lease) || (lease.slot in t.drained && t.sessions[lease.slot] == Own(s, lease))
    ensures lease.id in t.leases ==> SureOfOwn(t, lease)
  {
    StartedInv(size, leaseTtl);
    RunKeepsInv(Started(size, leaseTtl), es, s);
    RunNothingLeft(Started(size, leaseTtl), es, s);
    RunNothingLeft(s, fs, t);
    RunKeepsInv(s, fs, t);
    IssueStays(s, fs, t);
    if lease.id in t.leases {
      assert t.leases[lease.id] == lease;
    }
    if Carried(t, lease) {
      CarriedIsSure(t, lease);
    } else if lease.slot in t.drained {
      if t.sessions[lease.slot] == Own(t, lease) {
        DrainedIsSure(t, lease);
      }
      assert MayMeet(t, lease.slot, t.sessions[lease.slot]);
    } else if SureOfOwn(t, lease) {
      SureIsCarried(t, lease);
    }
  }

  // ---------------------------------------------------------------------------
  // The events that end a lease

  /** The step that takes a registered lease off the table: its release, or the sweeper finding it expired. */
  predicate Ends(s: Pool, e: Event, id: string) {
    || (e.Release? && e.lease.id == id)
    || (e.SweepAdvances? && s.sweep.Some? && s.sweep.value.rest != []
        && s.sweep.value.rest[0].id == id && s.sweep.value.now >= s.sweep.value.rest[0].deadline)
  }

  lemma StepRegistered(s: Pool, e: Event, id: string)
    requires Registered(s) && Enabled(s, e) && id in s.leases
    ensures id in Apply(s, e).leases <==> !Ends(s, e, id)
  {
  }

  /** Some step of the run ends the lease. */
  ghost predicate EndedIn(s: Pool, es: seq<Event>, id: string)
    decreases |es|
  {
    es != [] && Registered(s) && Enabled(s, es[0])
    && (Ends(s, es[0], id) || EndedIn(Apply(s, es[0]), es[1..], id))
  }

  /** A registered lease is still registered exactly if no step of the run has ended it. */
  lemma {:induction false} RegisteredUntilEnded(s: Pool, es: seq<Event>, t: Pool, id: string)
    requires Inv(s) && Runs(s, es, t) && id in s.leases
    ensures id in t.leases <==> !EndedIn(s, es, id)
    decreases |es|
  {
    if es != [] {
      var u := Apply(s, es[0]);
      StepInv(s, es[0]);
      StepRegistered(s, es[0], id);
      if id in u.leases {
        RegisteredUntilEnded(u, es[1..], t, id);
      } else {
        StepIssued(s, es[0], id);
        ReleasedForever(u, es[1..], t, id);
      }
    }
  }

  /** Another registered lease on the container with the domain and jar of this one. */
  ghost predicate Replaced(s: Pool, lease: Lease)
    requires Registered(s) && Issued(s, lease)
  {
    exists m :: m in s.leases && m != lease.id && s.leases[m].slot == lease.slot
                && s.leases[m].domain == lease.domain && s.issued[m].jar == s.issued[lease.id].jar
  }

  /**
   In terms of what happens between the check and the arrival: the drive is sure to meet its
   own session if nothing ends its lease, and otherwise only where the same session is there
   by chance, from another lease of the same domain and jar or from a failed reset.
   */
  lemma ArrivesUnlessEnded(size: nat, leaseTtl: int, es: seq<Event>, s: Pool, lease: Lease, fs: seq<Event>, t: Pool)
    requires Runs(Started(size, leaseTtl), es, s) && Runs(s, fs, t)
    requires InjectionsClean(es) && InjectionsClean(fs) && Issued(s, lease) && DriveAllowed(s, lease)
    ensures Inv(t) && Issued(t, lease) && Own(t, lease) == Own(s, lease) && lease.slot < |t.sessions|
    ensures SureOfOwn(t, lease)
            <==> !EndedIn(s, fs, lease.id) || Replaced(t, lease)
                 || (lease.slot in t.drained && t.sessions[lease.slot] == Own(s, lease))
  {
    ArrivesExactly(size, leaseTtl, es, s, lease, fs, t);
    StartedInv(size, leaseTtl);
    RunKeepsInv(Started(size, leaseTtl), es, s);
    RegisteredUntilEnded(s, fs, t, lease.id);
    CarriedOrReplaced(t, lease);
  }

  lemma CarriedOrReplaced(t: Pool, lease: Lease)
    requires Registered(t) && Issued(t, lease)
    ensures Carried(t, lease) <==> lease.id in t.leases || Replaced(t, lease)
  {
    if lease.id in t.leases {
      assert t.leases[lease.id] == lease;
    }
  }

  // ---------------------------------------------------------------------------
  // A drive that arrives too late

  /** The only container of a pool of one, with the session of the only lease. */
  lemma Leased(s: Pool, id: string, domain: string, jar: string, now: int) returns (es: seq<Event>, t: Pool)
    requires Registered(s) && id !in s.issued
    requires s.size == 1 && s.free == [0] && s.leases == map[] && s.sessions == [map[]]
    ensures Runs(s, es, t) && InjectionsClean(es) && t.size == 1 && t.leaseTtl == s.leaseTtl
    ensures var l := Lease(id, 0, domain, now + s.leaseTtl);
            t.leases == map[id := l] && t.issued == s.issued[id := Issue(l, jar)]
    ensures t.sessions == [map[domain := jar]]
  {
    var u := Take(s, id, domain, jar, now);
    TakeRegistered(s, id, domain, jar, now);
    t := InjectOk(u, id);
    es := [TakeSlot(id, domain, jar, now), InjectionOk(id)];
    TwoSteps(s, es[0], u, es[1], t);
  }

  /** The sweeper finds the lease expired and posts the reset. */
  lemma SweptUp(s: Pool, l: Lease) returns (es: seq<Event>, t: Pool)
    requires Registered(s) && s.leases == map[l.id := l]
    ensures Runs(s, es, t) && InjectionsClean(es) && t.size == s.size && t.leaseTtl == s.leaseTtl
    ensures t.free == s.free && t.leases == map[] && t.issued == s.issued && t.sessions == s.sessions
    ensures l.id in t.resetting && t.resetting[l.id] == l
  {
    assert s.leases[l.id] == l && forall x :: x in s.leases.Values <==> x == l;
    var u := SweepBegin(s, l.deadline, [l]);
    SweepRegistered(s, l.deadline, [l]);
    t := SweepNext(u);
    es := [SweepStarts(l.deadline, [l]), SweepAdvances];
    TwoSteps(s, es[0], u, es[1], t);
  }

  /** Its reset succeeds. */
  lemma Swept(s: Pool, l: Lease) returns (es: seq<Event>, t: Pool)
    requires Inv(s) && s.size == 1 && s.leases == map[l.id := l] && l.slot == 0
    ensures Inv(t) && Runs(s, es, t) && InjectionsClean(es) && t.size == 1 && t.leaseTtl == s.leaseTtl
    ensures t.free == [0] && t.leases == map[] && t.issued == s.issued && t.sessions == [map[]]
  {
    NothingQueued(s, l);
    var es1, v := SweptUp(s, l);
    RunKeepsInv(s, es1, v);
    var e := ResetSucceeded(l.id);
    t := ResetOk(v, l.id);
    assert Runs(t, [], t);
    RunPrepend(v, e, [], t);
    RunAppend(s, es1, v, [e] + [], t);
    es := es1 + ([e] + []);
    RunKeepsInv(s, es, t);
  }

  /** With one slot and a lease on it nothing is queued. */
  lemma NothingQueued(s: Pool, l: Lease)
    requires Inv(s) && s.size == 1 && s.leases == map[l.id := l] && l.slot == 0
    ensures s.free == []
  {
    PartitionCounts(s.size, s.free, s.drained, Held(s));
    HeldSize(s);
  }

  /**
   A drive that is sent for one lease and arrives after the sweeper has reset the container
   and another lease has taken it: it meets the other's jar and nothing else.
   */
  lemma LateArrival() returns (es: seq<Event>, s: Pool, lease: Lease, fs: seq<Event>, t: Pool)
    ensures Runs(Started(1, 30), es, s) && Runs(s, fs, t)
    ensures InjectionsClean(es) && InjectionsClean(fs) && Issued(s, lease) && DriveAllowed(s, lease)
    ensures Own(s, lease) == map["x.example" := "jar-a"]
    ensures forall session :: MayMeet(t, lease.slot, session) ==> session == map["y.example" := "jar-b"]
  {
    StartedInv(1, 30);
    assert Upto(1) == [0];
    es, s := Leased(Started(1, 30), "a", "x.example", "jar-a", 0);
    RunKeepsInv(Started(1, 30), es, s);
    lease := s.leases["a"];
    var fs1, fs2, u;
    fs1, u := Swept(s, lease);
    fs2, t := Leased(u, "b", "y.example", "jar-b", 31);
    RunAppend(s, fs1, u, fs2, t);
    fs := fs1 + fs2;
    RunKeepsInv(s, fs, t);
    HeldSlots(t, "b");
    var holder := SlotHolder(t, 0);
    forall session | MayMeet(t, 0, session) ensures session == map["y.example" := "jar-b"] {
      OnlyHolder(t, 0, holder, session);
    }
  }
}
