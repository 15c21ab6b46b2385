/**
 The browser lease pool of `proxy/browser_pool.py` as a step system. A step is the code
 a coroutine runs between two awaits; coroutines suspended inside `acquire` (waiting for
 POST /session) and inside `release` (waiting for POST /reset) are part of the state, and
 so is the session that each bridge container holds.
 */
module PoolModel {
  import opened Options

  datatype Lease = Lease(id: string, slot: nat, domain: string, deadline: int)

  /** A lease together with the cookie jar that acquire was called with. */
  datatype Issue = Issue(lease: Lease, jar: string)

  /** What a bridge container holds: the jar injected for each domain. */
  type Session = map<string, string>

  /** The sweeper's pass over the snapshot it took at time `now`; `rest` is still to do. */
  datatype Sweep = Sweep(now: int, snapshot: set<Lease>, rest: seq<Lease>)

  datatype Pool = Pool(
    size: nat,
    leaseTtl: int,
    free: seq<nat>,
    leases: map<string, Lease>,
    acquiring: map<string, Issue>,
    resetting: map<string, Lease>,
    drained: set<nat>,
    sessions: seq<Session>,
    sweep: Option<Sweep>,
    // History: every lease ever made, and what failed injections left in each container
    // since its last reset.
    issued: map<string, Issue>,
    leftover: seq<Session>)

  // ---------------------------------------------------------------------------
  // The steps

  function Upto(n: nat): (s: seq<nat>)
    ensures |s| == n && forall i :: 0 <= i < n ==> s[i] == i
  {
    if n == 0 then [] else Upto(n - 1) + [n - 1]
  }

  /** The pool after start(). */
  function Started(size: nat, leaseTtl: int): Pool {
    Pool(size, leaseTtl, Upto(size), map[], map[], map[], {}, seq(size, _ => map[]), None,
         map[], seq(size, _ => map[]))
  }

  /** acquire, from the queue to POST /session. */
  function Take(s: Pool, id: string, domain: string, jar: string, now: int): Pool
    requires s.free != [] && id !in s.issued
  {
    var issue := Issue(Lease(id, s.free[0], domain, now + s.leaseTtl), jar);
    s.(free := s.free[1..], acquiring := s.acquiring[id := issue], issued := s.issued[id := issue])
  }

  function Inject(session: Session, issue: Issue): Session {
    session[issue.lease.domain := issue.jar]
  }

  /** acquire, after POST /session succeeded. */
  function InjectOk(s: Pool, id: string): Pool
    requires id in s.acquiring && s.acquiring[id].lease.slot < |s.sessions|
  {
    var issue := s.acquiring[id];
    var slot := issue.lease.slot;
    s.(acquiring := s.acquiring - {id}, leases := s.leases[id := issue.lease],
       sessions := s.sessions[slot := Inject(s.sessions[slot], issue)])
  }

  /** acquire, after POST /session raised; the container may have applied the jar or not. */
  function InjectFail(s: Pool, id: string, applied: bool): Pool
    requires id in s.acquiring && s.acquiring[id].lease.slot < |s.sessions| == |s.leftover|
  {
    var issue := s.acquiring[id];
    var slot := issue.lease.slot;
    var t := s.(acquiring := s.acquiring - {id}, free := s.free + [slot]);
    if applied then
      t.(sessions := s.sessions[slot := Inject(s.sessions[slot], issue)],
         leftover := s.leftover[slot := Inject(s.leftover[slot], issue)])
    else t
  }

  /** release, up to POST /reset; a lease that is no longer registered is left alone. */
  function ReleaseBegin(s: Pool, lease: Lease): Pool {
    if lease.id in s.leases then
      s.(leases := s.leases - {lease.id}, resetting := s.resetting[lease.id := lease])
    else s
  }

  /** release, after POST /reset succeeded: the container is cleared and queued. */
  function ResetOk(s: Pool, id: string): Pool
    requires id in s.resetting && s.resetting[id].slot < |s.sessions| == |s.leftover|
  {
    var slot := s.resetting[id].slot;
    s.(resetting := s.resetting - {id}, free := s.free + [slot],
       sessions := s.sessions[slot := map[]], leftover := s.leftover[slot := map[]])
  }

  /** release, after POST /reset raised: the slot is drained, its session unknown. */
  function ResetFail(s: Pool, id: string, residue: Session): Pool
    requires id in s.resetting && s.resetting[id].slot < |s.sessions|
  {
    var slot := s.resetting[id].slot;
    s.(resetting := s.resetting - {id}, drained := s.drained + {slot},
       sessions := s.sessions[slot := residue])
  }

  /** The sweeper wakes up and copies the registered leases, in some order. */
  function SweepBegin(s: Pool, now: int, order: seq<Lease>): Pool {
    s.(sweep := Some(Sweep(now, s.leases.Values, order)))
  }

  /** The sweeper looks at the next lease of its copy and releases it when it has expired. */
  function SweepNext(s: Pool): Pool
    requires s.sweep.Some? && s.sweep.value.rest != []
  {
    var w := s.sweep.value;
    var lease := w.rest[0];
    var t := s.(sweep := Some(w.(rest := w.rest[1..])));
    if w.now >= lease.deadline then ReleaseBegin(t, lease) else t
  }

  /** The check that drive makes before it posts. */
  predicate DriveAllowed(s: Pool, lease: Lease) {
    lease.id in s.leases
  }

  datatype Event =
    | TakeSlot(id: string, domain: string, jar: string, now: int)
    | InjectionOk(id: string)
    | InjectionFailed(id: string, applied: bool)
    | Release(lease: Lease)
    | ResetSucceeded(id: string)
    | ResetFailed(id: string, residue: Session)
    | SweepStarts(now: int, order: seq<Lease>)
    | SweepAdvances

  /** Callers release leases that acquire returned to them; lease ids are fresh. */
  ghost predicate Enabled(s: Pool, e: Event) {
    match e
    case TakeSlot(id, _, _, _) => s.free != [] && id !in s.issued
    case InjectionOk(id) => id in s.acquiring
    case InjectionFailed(id, _) => id in s.acquiring
    case Release(lease) => lease.id in s.issued && s.issued[lease.id].lease == lease
    case ResetSucceeded(id) => id in s.resetting
    case ResetFailed(id, _) => id in s.resetting
    case SweepStarts(_, order) => forall l :: l in order <==> l in s.leases.Values
    case SweepAdvances => s.sweep.Some? && s.sweep.value.rest != []
  }

  ghost function Apply(s: Pool, e: Event): Pool
    requires Registered(s) && Enabled(s, e)
  {
    match e
    case TakeSlot(id, domain, jar, now) => Take(s, id, domain, jar, now)
    case InjectionOk(id) => InjectOk(s, id)
    case InjectionFailed(id, applied) => InjectFail(s, id, applied)
    case Release(lease) => ReleaseBegin(s, lease)
    case ResetSucceeded(id) => ResetOk(s, id)
    case ResetFailed(id, residue) => ResetFail(s, id, residue)
    case SweepStarts(now, order) => SweepBegin(s, now, order)
    case SweepAdvances => SweepNext(s)
  }

  // ---------------------------------------------------------------------------
  // Invariants

  /** The three maps hold leases that were issued under their own ids, on existing slots. */
  ghost predicate Registered(s: Pool) {
    && |s.sessions| == s.size && |s.leftover| == s.size
    && (forall id :: id in s.issued ==> s.issued[id].lease.id == id && s.issued[id].lease.slot < s.size)
    && (forall id :: id in s.leases ==> id in s.issued && s.leases[id] == s.issued[id].lease)
    && (forall id :: id in s.acquiring ==> id in s.issued && s.acquiring[id] == s.issued[id])
    && (forall id :: id in s.resetting ==> id in s.issued && s.resetting[id] == s.issued[id].lease)
    && s.leases.Keys !! s.acquiring.Keys !! s.resetting.Keys
  }

  /** The sweeper's copy holds leases that were issued and are past their injection. */
  ghost predicate SweepKnown(s: Pool) {
    s.sweep.Some? ==> forall l :: l in s.sweep.value.rest || l in s.sweep.value.snapshot ==>
      l.id in s.issued && s.issued[l.id].lease == l && l.id !in s.acquiring
  }

  /** The slots held by in-flight acquires, registered leases and in-flight resets. */
  ghost function Held(s: Pool): map<string, nat>
    requires Registered(s)
  {
    map id | id in s.leases.Keys + s.acquiring.Keys + s.resetting.Keys :: s.issued[id].lease.slot
  }

  /**
   Every slot 0..size-1 is in exactly one place: queued once, held by one id, or drained.
   */
  ghost predicate Partition(size: nat, free: seq<nat>, drained: set<nat>, held: map<string, nat>) {
    && (forall i, j :: 0 <= i < j < |free| ==> free[i] != free[j])
    && (forall k :: k in free ==> k < size && k !in drained)
    && (forall k :: k in drained ==> k < size)
    && (forall id :: id in held ==> held[id] < size && held[id] !in free && held[id] !in drained)
    && (forall i, j :: i in held && j in held && held[i] == held[j] ==> i == j)
    && (forall k: nat :: k < size ==> k in free || k in drained || k in held.Values)
  }

  /** What each container holds, given what failed injections left in it. */
  ghost predicate SessionsKnown(s: Pool)
    requires Registered(s)
  {
    && (forall k :: k in s.free && k < s.size ==> s.sessions[k] == s.leftover[k])
    && (forall id :: id in s.acquiring ==> s.sessions[s.issued[id].lease.slot] == s.leftover[s.issued[id].lease.slot])
    && (forall id :: id in s.leases ==>
          s.sessions[s.issued[id].lease.slot] == Inject(s.leftover[s.issued[id].lease.slot], s.issued[id]))
  }

  /** A lease the sweeper has passed and found expired is not registered any more. */
  ghost predicate SweepProgress(s: Pool) {
    s.sweep.Some? ==>
      var w := s.sweep.value;
      forall l :: l in w.snapshot && w.now >= l.deadline && l.id in s.leases ==> l in w.rest
  }

  ghost predicate Inv(s: Pool) {
    && Registered(s) && SweepKnown(s) && Partition(s.size, s.free, s.drained, Held(s))
    && SessionsKnown(s) && SweepProgress(s)
  }

  lemma StartedInv(size: nat, leaseTtl: int)
    ensures Inv(Started(size, leaseTtl))
  {
    var s := Started(size, leaseTtl);
    forall k: nat | k < size ensures k in s.free {
      assert s.free[k] == k;
    }
  }

  lemma PartitionTake(size: nat, free: seq<nat>, drained: set<nat>, held: map<string, nat>, id: string)
    requires Partition(size, free, drained, held) && free != [] && id !in held
    ensures Partition(size, free[1..], drained, held[id := free[0]])
  {
    var rest, held' := free[1..], held[id := free[0]];
    assert free[0] in free;
    assert forall k :: k in rest ==> k in free;
    forall k: nat | k < size ensures k in rest || k in drained || k in held'.Values {
      if k == free[0] {
        assert id in held' && held'[id] == k;
      } else if k in held.Values {
        var j :| j in held && held[j] == k;
        assert j in held' && held'[j] == k;
      }
    }
  }

  lemma PartitionRelease(size: nat, free: seq<nat>, drained: set<nat>, held: map<string, nat>, id: string)
    requires Partition(size, free, drained, held) && id in held
    ensures Partition(size, free + [held[id]], drained, held - {id})
    ensures Partition(size, free, drained + {held[id]}, held - {id})
  {
    var slot, held' := held[id], held - {id};
    assert slot in free + [slot];
    forall k: nat | k < size && k != slot ensures k in free || k in drained || k in held'.Values {
      if k in held.Values {
        var j :| j in held && held[j] == k;
        assert j in held' && held'[j] == k;
      }
    }
  }

  lemma TakeRegistered(s: Pool, id: string, domain: string, jar: string, now: int)
    requires Registered(s) && s.free != [] && s.free[0] < s.size && id !in s.issued
    ensures Registered(Take(s, id, domain, jar, now))
  {
  }

  lemma TakeSweepKnown(s: Pool, id: string, domain: string, jar: string, now: int)
    requires SweepKnown(s) && s.free != [] && id !in s.issued
    ensures SweepKnown(Take(s, id, domain, jar, now))
  {
  }

  lemma TakeHeld(s: Pool, id: string, domain: string, jar: string, now: int)
    requires Registered(s) && s.free != [] && id !in s.issued && Registered(Take(s, id, domain, jar, now))
    ensures Held(Take(s, id, domain, jar, now)) == Held(s)[id := s.free[0]]
  {
  }

  lemma TakeInv(s: Pool, id: string, domain: string, jar: string, now: int)
    requires Inv(s) && s.free != [] && id !in s.issued
    ensures Inv(Take(s, id, domain, jar, now))
  {
    assert s.free[0] in s.free;
    TakeRegistered(s, id, domain, jar, now);
    TakeSweepKnown(s, id, domain, jar, now);
    TakeHeld(s, id, domain, jar, now);
    PartitionTake(s.size, s.free, s.drained, Held(s), id);
    TakeSessions(s, id, domain, jar, now);
  }

  lemma TakeSessions(s: Pool, id: string, domain: string, jar: string, now: int)
    requires Registered(s) && SessionsKnown(s) && s.free != [] && s.free[0] < s.size && id !in s.issued
    requires Registered(Take(s, id, domain, jar, now))
    ensures SessionsKnown(Take(s, id, domain, jar, now))
  {
    var t := Take(s, id, domain, jar, now);
    assert s.free[0] in s.free;
    assert forall k :: k in t.free ==> k in s.free;
  }

  /** The sweeper's copy stays known as long as no further lease is being acquired. */
  lemma SweepStaysKnown(s: Pool, t: Pool)
    requires SweepKnown(s) && t.sweep == s.sweep && t.issued == s.issued && t.acquiring.Keys <= s.acquiring.Keys
    ensures SweepKnown(t)
  {
  }

  lemma InjectOkRegistered(s: Pool, id: string)
    requires Registered(s) && id in s.acquiring
    ensures Registered(InjectOk(s, id))
  {
  }

  lemma InjectOkHeld(s: Pool, id: string)
    requires Registered(s) && id in s.acquiring && Registered(InjectOk(s, id))
    ensures Held(InjectOk(s, id)) == Held(s)
  {
  }

  lemma InjectOkSessions(s: Pool, id: string)
    requires Registered(s) && id in s.acquiring && Registered(InjectOk(s, id))
    requires Partition(s.size, s.free, s.drained, Held(s)) && SessionsKnown(s)
    ensures SessionsKnown(InjectOk(s, id))
  {
    var t := InjectOk(s, id);
    var slot := s.acquiring[id].lease.slot;
    OthersElsewhere(s, id, slot);
    assert t.leftover == s.leftover && t.free == s.free && t.issued == s.issued;
    assert forall k :: 0 <= k < s.size && k != slot ==> t.sessions[k] == s.sessions[k];
    forall j | j in t.leases ensures
        t.sessions[t.issued[j].lease.slot] == Inject(t.leftover[t.issued[j].lease.slot], t.issued[j])
    {
      assert j == id || (j in s.leases && j in Held(s));
    }
  }

  /** No other id holds the slot that id holds, and it is not queued. */
  lemma OthersElsewhere(s: Pool, id: string, slot: nat)
    requires Registered(s) && Partition(s.size, s.free, s.drained, Held(s))
    requires id in Held(s) && Held(s)[id] == slot
    ensures slot !in s.free && slot !in s.drained && slot < s.size
    ensures forall j :: j in Held(s) && j != id ==> s.issued[j].lease.slot != slot
  {
    forall j | j in Held(s) && j != id ensures s.issued[j].lease.slot != slot {
      assert Held(s)[j] == s.issued[j].lease.slot;
    }
  }

  lemma InjectOkInv(s: Pool, id: string)
    requires Inv(s) && id in s.acquiring
    ensures Inv(InjectOk(s, id))
  {
    InjectOkRegistered(s, id);
    InjectOkHeld(s, id);
    SweepStaysKnown(s, InjectOk(s, id));
    InjectOkSessions(s, id);
    InjectOkSweep(s, id);
  }

  lemma InjectOkSweep(s: Pool, id: string)
    requires Registered(s) && SweepKnown(s) && SweepProgress(s) && id in s.acquiring
    ensures SweepProgress(InjectOk(s, id))
  {
  }

  lemma FreedRegistered(s: Pool, id: string, applied: bool)
    requires Registered(s) && id in s.acquiring
    ensures Registered(InjectFail(s, id, applied))
  {
  }

  lemma FreedHeld(s: Pool, id: string, applied: bool)
    requires Registered(s) && id in s.acquiring && Registered(InjectFail(s, id, applied))
    ensures Held(InjectFail(s, id, applied)) == Held(s) - {id}
  {
  }

  /** A step that frees a slot, and touches the container of no other. */
  lemma SlotFreed(s: Pool, t: Pool, slot: nat)
    requires Registered(s) && Registered(t) && SessionsKnown(s) && t.issued == s.issued && t.size == s.size
    requires t.acquiring.Keys <= s.acquiring.Keys && t.leases.Keys <= s.leases.Keys
    requires forall id :: id in t.acquiring || id in t.leases ==> s.issued[id].lease.slot != slot
    requires forall k :: k in t.free ==> k in s.free || (k == slot < s.size && t.sessions[k] == t.leftover[k])
    requires forall k :: 0 <= k < s.size && k != slot ==>
               t.sessions[k] == s.sessions[k] && t.leftover[k] == s.leftover[k]
    requires slot !in s.free
    ensures SessionsKnown(t)
  {
  }

  lemma InjectFailSessions(s: Pool, id: string, applied: bool)
    requires Registered(s) && id in s.acquiring && Registered(InjectFail(s, id, applied))
    requires Partition(s.size, s.free, s.drained, Held(s)) && SessionsKnown(s)
    ensures SessionsKnown(InjectFail(s, id, applied))
  {
    var t := InjectFail(s, id, applied);
    var slot := s.acquiring[id].lease.slot;
    OthersElsewhere(s, id, slot);
    InjectFailSlots(s, id, applied);
    OthersRemain(s, t, id, slot);
    SlotFreed(s, t, slot);
  }

  /** The ids that still acquire or lease after id has left its slot are elsewhere. */
  lemma OthersRemain(s: Pool, t: Pool, id: string, slot: nat)
    requires Registered(s) && t.acquiring.Keys <= s.acquiring.Keys && t.leases.Keys <= s.leases.Keys
    requires id !in t.acquiring && id !in t.leases
    requires forall j :: j in Held(s) && j != id ==> s.issued[j].lease.slot != slot
    ensures forall j :: j in t.acquiring || j in t.leases ==> s.issued[j].lease.slot != slot
  {
    forall j | j in t.acquiring || j in t.leases ensures s.issued[j].lease.slot != slot {
      assert j in Held(s);
    }
  }

  lemma InjectFailSlots(s: Pool, id: string, applied: bool)
    requires Registered(s) && id in s.acquiring && SessionsKnown(s)
    ensures var t, slot := InjectFail(s, id, applied), s.acquiring[id].lease.slot;
            && |t.sessions| == |t.leftover| == s.size && t.sessions[slot] == t.leftover[slot]
            && (forall k :: 0 <= k < s.size && k != slot ==>
                  t.sessions[k] == s.sessions[k] && t.leftover[k] == s.leftover[k])
  {
    var t, slot := InjectFail(s, id, applied), s.acquiring[id].lease.slot;
    assert s.acquiring[id] == s.issued[id] && s.sessions[slot] == s.leftover[slot];
    assert t.sessions[slot] == t.leftover[slot];
  }

  lemma InjectFailInv(s: Pool, id: string, applied: bool)
    requires Inv(s) && id in s.acquiring
    ensures Inv(InjectFail(s, id, applied))
  {
    assert id in Held(s) && Held(s)[id] == s.acquiring[id].lease.slot;
    FreedRegistered(s, id, applied);
    FreedHeld(s, id, applied);
    SweepStaysKnown(s, InjectFail(s, id, applied));
    PartitionRelease(s.size, s.free, s.drained, Held(s), id);
    InjectFailSessions(s, id, applied);
    InjectFailSweep(s, id, applied);
  }

  lemma InjectFailSweep(s: Pool, id: string, applied: bool)
    requires Registered(s) && SweepProgress(s) && id in s.acquiring
    ensures SweepProgress(InjectFail(s, id, applied))
  {
  }

  lemma ReleaseRegistered(s: Pool, lease: Lease)
    requires Registered(s) && lease.id in s.issued && s.issued[lease.id].lease == lease
    ensures Registered(ReleaseBegin(s, lease))
  {
  }

  lemma ReleaseHeld(s: Pool, lease: Lease)
    requires Registered(s) && Registered(ReleaseBegin(s, lease))
    ensures Held(ReleaseBegin(s, lease)) == Held(s)
  {
  }

  lemma ReleaseInv(s: Pool, lease: Lease)
    requires Inv(s) && lease.id in s.issued && s.issued[lease.id].lease == lease
    ensures Inv(ReleaseBegin(s, lease))
  {
    ReleaseRegistered(s, lease);
    ReleaseHeld(s, lease);
    SweepStaysKnown(s, ReleaseBegin(s, lease));
    ReleaseRest(s, lease);
  }

  lemma ReleaseRest(s: Pool, lease: Lease)
    requires Registered(s) && Registered(ReleaseBegin(s, lease)) && SessionsKnown(s) && SweepProgress(s)
    ensures SessionsKnown(ReleaseBegin(s, lease)) && SweepProgress(ReleaseBegin(s, lease))
  {
  }

  lemma ResetRegistered(s: Pool, id: string, residue: Session)
    requires Registered(s) && id in s.resetting
    ensures Registered(ResetOk(s, id)) && Registered(ResetFail(s, id, residue))
  {
  }

  lemma ResetHeld(s: Pool, id: string, residue: Session)
    requires Registered(s) && id in s.resetting
    requires Registered(ResetOk(s, id)) && Registered(ResetFail(s, id, residue))
    ensures Held(ResetOk(s, id)) == Held(s) - {id} && Held(ResetFail(s, id, residue)) == Held(s) - {id}
  {
  }

  lemma ResetOkSessions(s: Pool, id: string)
    requires Registered(s) && id in s.resetting && Registered(ResetOk(s, id))
    requires Partition(s.size, s.free, s.drained, Held(s)) && SessionsKnown(s)
    ensures SessionsKnown(ResetOk(s, id))
  {
    var t := ResetOk(s, id);
    var slot := s.resetting[id].slot;
    OthersElsewhere(s, id, slot);
    assert t.sessions[slot] == t.leftover[slot];
    OthersRemain(s, t, id, slot);
    SlotFreed(s, t, slot);
  }

  lemma ResetFailSessions(s: Pool, id: string, residue: Session)
    requires Registered(s) && id in s.resetting && Registered(ResetFail(s, id, residue))
    requires Partition(s.size, s.free, s.drained, Held(s)) && SessionsKnown(s)
    ensures SessionsKnown(ResetFail(s, id, residue))
  {
    var t := ResetFail(s, id, residue);
    var slot := s.resetting[id].slot;
    OthersElsewhere(s, id, slot);
    OthersRemain(s, t, id, slot);
    SlotFreed(s, t, slot);
  }

  lemma ResetInv(s: Pool, id: string, residue: Session)
    requires Inv(s) && id in s.resetting
    ensures Inv(ResetOk(s, id)) && Inv(ResetFail(s, id, residue))
  {
    assert id in Held(s) && Held(s)[id] == s.resetting[id].slot;
    ResetRegistered(s, id, residue);
    ResetHeld(s, id, residue);
    SweepStaysKnown(s, ResetOk(s, id));
    SweepStaysKnown(s, ResetFail(s, id, residue));
    PartitionRelease(s.size, s.free, s.drained, Held(s), id);
    ResetOkSessions(s, id);
    ResetFailSessions(s, id, residue);
    ResetSweep(s, id, residue);
  }

  lemma ResetSweep(s: Pool, id: string, residue: Session)
    requires Registered(s) && SweepProgress(s) && id in s.resetting
    ensures SweepProgress(ResetOk(s, id)) && SweepProgress(ResetFail(s, id, residue))
  {
  }

  lemma SweepInv(s: Pool, now: int, order: seq<Lease>)
    requires Inv(s) && forall l :: l in order <==> l in s.leases.Values
    ensures Inv(SweepBegin(s, now, order))
  {
    SweepRegistered(s, now, order);
  }

  lemma SweepRegistered(s: Pool, now: int, order: seq<Lease>)
    requires Registered(s) && forall l :: l in order <==> l in s.leases.Values
    ensures Registered(SweepBegin(s, now, order)) && SweepKnown(SweepBegin(s, now, order))
    ensures Held(SweepBegin(s, now, order)) == Held(s)
  {
  }

  /** Dropping the head of the copy, before the lease is looked at. */
  ghost function Advanced(s: Pool): Pool
    requires s.sweep.Some? && s.sweep.value.rest != []
  {
    var w := s.sweep.value;
    s.(sweep := Some(w.(rest := w.rest[1..])))
  }

  lemma AdvancedRegistered(s: Pool)
    requires Registered(s) && SweepKnown(s) && s.sweep.Some? && s.sweep.value.rest != []
    ensures Registered(Advanced(s)) && SweepKnown(Advanced(s)) && Held(Advanced(s)) == Held(s)
  {
    var rest := s.sweep.value.rest;
    assert forall l :: l in rest[1..] ==> l in rest;
  }

  lemma SweepNextProgress(s: Pool)
    requires Registered(s) && SweepProgress(s) && s.sweep.Some? && s.sweep.value.rest != []
    ensures SweepProgress(SweepNext(s))
  {
    var w := s.sweep.value;
    assert w.rest == [w.rest[0]] + w.rest[1..];
  }

  lemma SweepNextKnown(s: Pool)
    requires Registered(s) && SweepKnown(s) && s.sweep.Some? && s.sweep.value.rest != []
    ensures Registered(SweepNext(s)) && SweepKnown(SweepNext(s)) && Held(SweepNext(s)) == Held(s)
  {
    var t, lease := Advanced(s), s.sweep.value.rest[0];
    assert lease in s.sweep.value.rest;
    AdvancedRegistered(s);
    ReleaseRegistered(t, lease);
    ReleaseHeld(t, lease);
    SweepStaysKnown(t, ReleaseBegin(t, lease));
  }

  lemma SweepNextInv(s: Pool)
    requires Inv(s) && s.sweep.Some? && s.sweep.value.rest != []
    ensures Inv(SweepNext(s))
  {
    SweepNextKnown(s);
    SweepNextProgress(s);
    SweepNextSessions(s);
  }

  lemma SweepNextSessions(s: Pool)
    requires Registered(s) && SessionsKnown(s) && s.sweep.Some? && s.sweep.value.rest != []
    requires Registered(SweepNext(s))
    ensures SessionsKnown(SweepNext(s))
  {
  }

  /** Every step keeps the invariant. */
  lemma StepInv(s: Pool, e: Event)
    requires Inv(s) && Enabled(s, e)
    ensures Inv(Apply(s, e))
  {
    match e
    case TakeSlot(id, domain, jar, now) => TakeInv(s, id, domain, jar, now);
    case InjectionOk(id) => InjectOkInv(s, id);
    case InjectionFailed(id, applied) => InjectFailInv(s, id, applied);
    case Release(lease) => ReleaseInv(s, lease);
    case ResetSucceeded(id) => ResetInv(s, id, map[]);
    case ResetFailed(id, residue) => ResetInv(s, id, residue);
    case SweepStarts(now, order) => SweepInv(s, now, order);
    case SweepAdvances => SweepNextInv(s);
  }
}
