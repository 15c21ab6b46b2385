/**
 The pool object of `proxy/browser_pool.py`. Each method is the code of one coroutine
 between two awaits, updating the queue and the lease table in place; its postcondition
 names the step of the pool model that it is. `Valid()` is the invariant of that model.
 */
module BrowserPool {
  import opened PoolModel
  import opened PoolRuns
  import opened Options

  /** Exactly the lease l went from the lease table to the coroutines resetting a container. */
  ghost predicate Moved(leases: map<string, Lease>, resetting: map<string, Lease>, l: Lease,
                        leases': map<string, Lease>, resetting': map<string, Lease>) {
    l.id in leases && leases' == leases - {l.id} && resetting' == resetting[l.id := l]
  }

  class BrowserPool {
    const size: nat
    const leaseTtl: int
    var free: seq<nat>
    var leases: map<string, Lease>
    // Coroutines suspended in acquire and in release, and the containers they talk to.
    var acquiring: map<string, Issue>
    var resetting: map<string, Lease>
    var drained: set<nat>
    var sessions: seq<Session>
    var sweep: Option<Sweep>
    ghost var issued: map<string, Issue>
    ghost var leftover: seq<Session>

    ghost function State(): Pool
      reads this
    {
      Pool(size, leaseTtl, free, leases, acquiring, resetting, drained, sessions, sweep, issued, leftover)
    }

    ghost predicate Valid()
      reads this
    {
      Inv(State())
    }

    /** start(): one warm container a slot, queued in order. */
    constructor (size: nat, leaseTtl: int)
      ensures State() == Started(size, leaseTtl) && Valid()
      ensures this.size == size && |free| == |sessions| == size && leases == map[]
      ensures forall slot :: 0 <= slot < size ==> free[slot] == slot && sessions[slot] == map[]
    {
      this.size, this.leaseTtl := size, leaseTtl;
      free, leases, acquiring, resetting, drained := [], map[], map[], map[], {};
      sessions := seq(size, _ => map[]);
      sweep, issued := None, map[];
      leftover := seq(size, _ => map[]);
      new;
      for slot := 0 to size
        invariant free == Upto(slot)
        invariant State() == Started(size, leaseTtl).(free := free)
      {
        free := free + [slot];
      }
      StartedInv(size, leaseTtl);
    }

    /** acquire once the queue has a slot for it, up to its POST /session. */
    method AcquireSlot(id: string, domain: string, jar: string, now: int) returns (lease: Lease)
      requires Valid() && id !in issued && free != []
      modifies this
      ensures Valid() && State() == Take(old(State()), id, domain, jar, now)
      ensures lease == Lease(id, old(free[0]), domain, now + leaseTtl)
      ensures free == old(free)[1..] && acquiring == old(acquiring)[id := Issue(lease, jar)] && leases == old(leases)
    {
      TakeInv(State(), id, domain, jar, now);
      ghost var next := Take(State(), id, domain, jar, now);
      lease := Lease(id, free[0], domain, now + leaseTtl);
      free := free[1..];
      acquiring := acquiring[id := Issue(lease, jar)];
      issued := issued[id := Issue(lease, jar)];
      assert State() == next;
    }

    /** acquire after its POST /session succeeded: the lease is registered. */
    method AcquireDone(id: string) returns (lease: Lease)
      requires Valid() && id in acquiring
      modifies this
      ensures Valid() && State() == InjectOk(old(State()), id) && lease == old(acquiring[id]).lease
      ensures leases == old(leases)[id := lease] && acquiring == old(acquiring) - {id} && free == old(free)
      ensures sessions == old(sessions)[lease.slot := old(sessions)[lease.slot][lease.domain := old(acquiring)[id].jar]]
    {
      InjectOkInv(State(), id);
      ghost var next := InjectOk(State(), id);
      var issue := acquiring[id];
      lease := issue.lease;
      sessions := sessions[lease.slot := Inject(sessions[lease.slot], issue)];
      acquiring := acquiring - {id};
      leases := leases[id := lease];
      assert State() == next;
    }

    /** acquire after its POST /session raised: the slot is queued again, without a reset. */
    method AcquireFailed(id: string, applied: bool)
      requires Valid() && id in acquiring
      modifies this
      ensures Valid() && State() == InjectFail(old(State()), id, applied)
      ensures var lease := old(acquiring)[id].lease;
              && free == old(free) + [lease.slot] && acquiring == old(acquiring) - {id} && leases == old(leases)
              && sessions == (if applied then
                                old(sessions)[lease.slot :=
                                  old(sessions)[lease.slot][lease.domain := old(acquiring)[id].jar]]
                              else old(sessions))
    {
      InjectFailInv(State(), id, applied);
      Unacquire(id, applied);
    }

    method Unacquire(id: string, applied: bool)
      requires id in acquiring && acquiring[id].lease.slot < |sessions| == |leftover|
      modifies this
      ensures State() == InjectFail(old(State()), id, applied)
      ensures var issue, slot := old(acquiring)[id], old(acquiring)[id].lease.slot;
              && free == old(free) + [slot] && acquiring == old(acquiring) - {id} && leases == old(leases)
              && sessions == if applied then old(sessions)[slot := Inject(old(sessions)[slot], issue)]
                             else old(sessions)
    {
      ghost var next := InjectFail(State(), id, applied);
      var issue := acquiring[id];
      Requeue(id);
      if applied {
        LeaveJar(issue);
        assert State() == next;
      }
    }

    method Requeue(id: string)
      requires id in acquiring
      modifies this`acquiring, this`free
      ensures acquiring == old(acquiring) - {id} && free == old(free) + [old(acquiring)[id].lease.slot]
    {
      free := free + [acquiring[id].lease.slot];
      acquiring := acquiring - {id};
    }

    /** The container applied a jar whose injection is reported as failed. */
    method LeaveJar(issue: Issue)
      requires issue.lease.slot < |sessions| == |leftover|
      modifies this`sessions, this`leftover
      ensures var slot := issue.lease.slot;
              && sessions == old(sessions)[slot := Inject(old(sessions)[slot], issue)]
              && leftover == old(leftover)[slot := Inject(old(leftover)[slot], issue)]
    {
      var slot := issue.lease.slot;
      sessions := sessions[slot := Inject(sessions[slot], issue)];
      leftover := leftover[slot := Inject(leftover[slot], issue)];
    }

    /** drive's check; with clean injections the container then holds exactly the lease's jar. */
    method Drive(lease: Lease) returns (allowed: bool)
      requires Valid() && lease.id in issued && issued[lease.id].lease == lease
      ensures allowed == (lease.id in leases)
      ensures allowed && leftover[lease.slot].Keys <= {lease.domain} ==>
                sessions[lease.slot] == map[lease.domain := issued[lease.id].jar]
    {
      allowed := lease.id in leases;
      if allowed {
        IsolationExactly(State(), lease);
      }
    }

    /** release up to its POST /reset; false when the lease was already released. */
    method ReleaseStart(lease: Lease) returns (popped: bool)
      requires Valid() && lease.id in issued && issued[lease.id].lease == lease
      modifies this
      ensures Valid() && popped == (lease.id in old(leases))
      ensures State() == ReleaseBegin(old(State()), lease)
      ensures popped ==> Moved(old(leases), old(resetting), lease, leases, resetting)
      ensures !popped ==> leases == old(leases) && resetting == old(resetting)
      ensures free == old(free) && sessions == old(sessions) && drained == old(drained)
    {
      ReleaseInv(State(), lease);
      popped := lease.id in leases;
      if popped {
        leases := leases - {lease.id};
        resetting := resetting[lease.id := lease];
      }
    }

    /** release after its POST /reset succeeded: the cleared container is queued. */
    method ReleaseDone(id: string)
      requires Valid() && id in resetting
      modifies this
      ensures Valid() && State() == ResetOk(old(State()), id)
      ensures var slot := old(resetting)[id].slot;
              && free == old(free) + [slot] && sessions == old(sessions)[slot := map[]] && drained == old(drained)
              && resetting == old(resetting) - {id} && leases == old(leases)
    {
      ResetInv(State(), id, map[]);
      ghost var next := ResetOk(State(), id);
      var slot := resetting[id].slot;
      resetting := resetting - {id};
      sessions := sessions[slot := map[]];
      leftover := leftover[slot := map[]];
      free := free + [slot];
      assert State() == next;
    }

    /** release after its POST /reset raised: the slot is drained. */
    method ReleaseFailed(id: string, residue: Session)
      requires Valid() && id in resetting
      modifies this
      ensures Valid() && State() == ResetFail(old(State()), id, residue)
      ensures var slot := old(resetting)[id].slot;
              && free == old(free) && sessions == old(sessions)[slot := residue] && drained == old(drained) + {slot}
              && resetting == old(resetting) - {id} && leases == old(leases)
    {
      ResetInv(State(), id, residue);
      ghost var next := ResetFail(State(), id, residue);
      var slot := resetting[id].slot;
      resetting := resetting - {id};
      sessions := sessions[slot := residue];
      drained := drained + {slot};
      assert State() == next;
    }

    /** The sweeper wakes up and copies the lease table. */
    method SweepStart(now: int, order: seq<Lease>)
      requires Valid() && forall l :: l in order <==> l in leases.Values
      modifies this
      ensures Valid() && State() == SweepBegin(old(State()), now, order)
      ensures sweep == Some(Sweep(now, old(leases).Values, order)) && leases == old(leases) && free == old(free)
    {
      SweepInv(State(), now, order);
      sweep := Some(Sweep(now, leases.Values, order));
    }

    /** The sweeper looks at one lease of its copy. */
    method SweepStep() returns (released: bool)
      requires Valid() && sweep.Some? && sweep.value.rest != []
      modifies this
      ensures Valid() && State() == SweepNext(old(State()))
      ensures free == old(free) && acquiring == old(acquiring) && drained == old(drained) && sessions == old(sessions)
      ensures sweep == Some(old(sweep).value.(rest := old(sweep).value.rest[1..]))
      ensures released <==> old(sweep).value.now >= old(sweep).value.rest[0].deadline
                            && old(sweep).value.rest[0].id in old(leases)
      ensures !released ==> leases == old(leases) && resetting == old(resetting)
      ensures released ==> var l := old(sweep).value.rest[0];
                           sweep.value.now >= l.deadline && Moved(old(leases), old(resetting), l, leases, resetting)
    {
      SweepNextInv(State());
      released := LookAtNext();
    }

    method LookAtNext() returns (released: bool)
      requires sweep.Some? && sweep.value.rest != []
      modifies this`sweep, this`leases, this`resetting
      ensures State() == SweepNext(old(State()))
      ensures sweep == Some(old(sweep).value.(rest := old(sweep).value.rest[1..]))
      ensures released <==> old(sweep).value.now >= old(sweep).value.rest[0].deadline
                            && old(sweep).value.rest[0].id in old(leases)
      ensures !released ==> leases == old(leases) && resetting == old(resetting)
      ensures released ==> Moved(old(leases), old(resetting), old(sweep).value.rest[0], leases, resetting)
    {
      ghost var next := SweepNext(State());
      var w := sweep.value;
      var lease := w.rest[0];
      sweep := Some(w.(rest := w.rest[1..]));
      released := w.now >= lease.deadline && lease.id in leases;
      if released {
        leases := leases - {lease.id};
        resetting := resetting[lease.id := lease];
      }
      assert State() == next;
    }

    /**
     The sweeper runs until it has started one release or finished its copy; in the second
     case every lease of the copy that had expired is gone.
     */
    method SweepRun() returns (released: bool)
      requires Valid() && sweep.Some?
      modifies this
      ensures Valid() && sweep.Some?
      ensures free == old(free) && acquiring == old(acquiring) && drained == old(drained) && sessions == old(sessions)
      ensures !released ==> sweep.value.rest == [] && leases == old(leases) && resetting == old(resetting)
      ensures !released ==> forall l :: l in sweep.value.snapshot && sweep.value.now >= l.deadline ==> l.id !in leases
      ensures released ==> exists l :: l in old(sweep).value.rest && sweep.value.now >= l.deadline
                                       && Moved(old(leases), old(resetting), l, leases, resetting)
    {
      released := false;
      while sweep.value.rest != [] && !released
        invariant Valid() && sweep.Some?
        invariant free == old(free) && acquiring == old(acquiring)
        invariant drained == old(drained) && sessions == old(sessions)
        invariant forall l :: l in sweep.value.rest ==> l in old(sweep).value.rest
        invariant !released ==> leases == old(leases) && resetting == old(resetting)
        invariant released ==> exists l :: l in old(sweep).value.rest && sweep.value.now >= l.deadline
                                           && Moved(old(leases), old(resetting), l, leases, resetting)
        decreases |sweep.value.rest|
      {
        ghost var rest := sweep.value.rest;
        assert rest[0] in rest && forall l :: l in rest[1..] ==> l in rest;
        released := SweepStep();
      }
    }
  }
}
