/**
 What holds over whole runs of the credential broker: a grant that has been revoked or found
 expired never comes back, and every other grant stays, through restarts too.
 */
module GrantRuns {
  import opened GrantModel
  import opened Options

  predicate Runs(s: Broker, es: seq<Event>, t: Broker)
    decreases |es|
  {
    if es == [] then s == t
    else Enabled(s, es[0]) && Runs(Apply(s, es[0]), es[1..], t)
  }

  lemma StartedInv(now: int, disk: map<string, Record>, used: set<string>)
    requires disk.Keys <= used
    ensures Inv(Started(now, disk, used))
  {
  }

  lemma {:induction false} RunInv(s: Broker, es: seq<Event>, t: Broker)
    requires Inv(s) && Runs(s, es, t)
    ensures Inv(t)
    decreases |es|
  {
    if es != [] {
      StepInv(s, es[0]);
      RunInv(Apply(s, es[0]), es[1..], t);
    }
  }

  /**
   In every run from any set of files, memory and files agree on the grants in memory, and
   whatever else is on disk is dead.
   */
  lemma MemoryAndFiles(now: int, disk: map<string, Record>, used: set<string>, es: seq<Event>, t: Broker)
    requires disk.Keys <= used && Runs(Started(now, disk, used), es, t)
    ensures forall id :: id in t.mem ==> id in t.objs && id in t.disk && t.disk[id] == t.objs[id]
    ensures forall id :: id in t.disk && !Dead(t.disk[id], t.now) ==> id in t.mem
  {
    StartedInv(now, disk, used);
    RunInv(Started(now, disk, used), es, t);
  }

  // ---------------------------------------------------------------------------
  // A grant that is gone

  predicate Gone(s: Broker, id: string) {
    id in s.used && id !in s.mem
  }

  lemma StepGone(s: Broker, e: Event, id: string)
    requires Inv(s) && Enabled(s, e) && Gone(s, id)
    ensures Gone(Apply(s, e), id)
  {
  }

  lemma {:induction false} RunGone(s: Broker, es: seq<Event>, t: Broker, id: string)
    requires Inv(s) && Runs(s, es, t) && Gone(s, id)
    ensures Gone(t, id)
    decreases |es|
  {
    if es != [] {
      StepInv(s, es[0]);
      StepGone(s, es[0], id);
      RunGone(Apply(s, es[0]), es[1..], t, id);
    }
  }

  /** A grant in memory that the event revokes, or that get or list or cleanup finds expired. */
  predicate Ends(s: Broker, e: Event, id: string) {
    && id in s.mem && id in s.objs
    && match e
       case Revokes(which) => which == id
       case Gets(which) => which == id && IsExpired(s.objs[id], s.now)
       case Begins(which) => which == id && IsExpired(s.objs[id], s.now)
       case Lists(project) => Selects(project, s.objs[id]) && IsExpired(s.objs[id], s.now)
       case Cleans => IsExpired(s.objs[id], s.now)
       case _ => false
  }

  /**
   Once a grant has been revoked, or found expired, neither get nor list returns it again, in
   any continuation: calls that were in flight may save its file again, and the broker may
   restart and recover from the files any number of times.
   */
  lemma NeverReturned(s: Broker, e: Event, id: string, es: seq<Event>, t: Broker)
    requires Inv(s) && Ends(s, e, id) && Runs(s, [e] + es, t)
    ensures Found(t, id) == None
    ensures forall project :: id !in Listed(t, project)
    ensures id in t.disk ==> Dead(t.disk[id], t.now)
  {
    assert ([e] + es)[1..] == es;
    StepInv(s, e);
    assert Gone(Apply(s, e), id);
    RunInv(Apply(s, e), es, t);
    RunGone(Apply(s, e), es, t, id);
  }

  // ---------------------------------------------------------------------------
  // A grant that stays

  /** A restart between writes cannot be seen: every get and every list answers as before. */
  lemma RestartInvisible(s: Broker, id: string, project: Option<string>)
    requires Inv(s)
    ensures Found(Restart(s, {}), id) == Found(s, id)
    ensures Listed(Restart(s, {}), project) == Listed(s, project)
  {
    var t := Restart(s, {});
    forall i ensures i in Listed(t, project) <==> i in Listed(s, project) {
      assert i in t.mem <==> i in s.disk && !Dead(s.disk[i], s.now);
    }
  }

  /** The event is no revocation or renewal of the grant and does not tear its file. */
  predicate Leaves(e: Event, id: string) {
    match e
    case Revokes(which) => which != id
    case Reauthorizes(which, _, _, _) => which != id
    case Restarts(torn) => id !in torn
    case _ => true
  }

  function Unstamped(r: Record): Record {
    r.(lastUsed := None)
  }

  lemma StepKeeps(s: Broker, e: Event, id: string)
    requires Inv(s) && Enabled(s, e) && Found(s, id).Some? && Leaves(e, id)
    requires !IsExpired(s.objs[id], Apply(s, e).now)
    ensures Found(Apply(s, e), id).Some? && Unstamped(Found(Apply(s, e), id).value) == Unstamped(Found(s, id).value)
  {
    match e
    case Restarts(torn) => RestartKeeps(s, torn, id);
    case Finishes(which) =>
      var r := s.objs[which].(lastUsed := Some(s.now));
      assert Finish(s, which).objs == s.objs[which := r];
    case Revokes(which) =>
    case Reauthorizes(which, secret, ttl, scope) => RenewKeeps(s, which, secret, ttl, scope, id);
    case _ =>
  }

  lemma RestartKeeps(s: Broker, torn: set<string>, id: string)
    requires Inv(s) && id !in torn
    ensures Found(Restart(s, torn), id) == Found(s, id)
  {
  }

  lemma RenewKeeps(s: Broker, which: string, secret: Option<string>, ttl: Option<int>, scope: Option<string>,
                   id: string)
    requires which != id
    ensures Found(Reauthorize(s, which, secret, ttl, scope), id) == Found(s, id)
  {
  }

  lemma {:induction false} ClockRuns(s: Broker, es: seq<Event>, t: Broker)
    requires Runs(s, es, t)
    ensures s.now <= t.now
    decreases |es|
  {
    if es != [] {
      ClockRuns(Apply(s, es[0]), es[1..], t);
    }
  }

  /**
   A grant that nobody revokes or renews is returned unchanged, but for its time of last use,
   until the moment it expires, whatever happens to other grants and however often the broker
   restarts.
   */
  lemma {:induction false} KeptUntilExpiry(s: Broker, es: seq<Event>, t: Broker, id: string)
    requires Inv(s) && Runs(s, es, t) && Found(s, id).Some?
    requires forall e :: e in es ==> Leaves(e, id)
    requires !IsExpired(s.objs[id], t.now)
    ensures Found(t, id).Some? && Unstamped(Found(t, id).value) == Unstamped(Found(s, id).value)
    decreases |es|
  {
    if es != [] {
      var u := Apply(s, es[0]);
      assert es[0] in es && forall e :: e in es[1..] ==> e in es;
      ClockRuns(u, es[1..], t);
      StepInv(s, es[0]);
      StepKeeps(s, es[0], id);
      assert u.objs[id].expiresAt == s.objs[id].expiresAt;
      KeptUntilExpiry(u, es[1..], t, id);
    }
  }

  /** Every copy of the grant, in memory and on disk, is this record, but for its time of last use. */
  predicate Carries(s: Broker, id: string, r: Record) {
    && id in s.used
    && (id in s.objs ==> Unstamped(s.objs[id]) == r)
    && (id in s.disk ==> Unstamped(s.disk[id]) == r)
  }

  lemma StepCarries(s: Broker, e: Event, id: string, r: Record)
    requires Enabled(s, e) && Carries(s, id, r) && Leaves(e, id)
    ensures Carries(Apply(s, e), id, r)
  {
    match e
    case Finishes(which) => FinishCarries(s, which, id, r);
    case Reauthorizes(which, secret, ttl, scope) => RenewCarries(s, which, secret, ttl, scope, id, r);
    case _ =>
  }

  lemma FinishCarries(s: Broker, which: string, id: string, r: Record)
    requires which in s.objs && Carries(s, id, r)
    ensures Carries(Finish(s, which), id, r)
  {
    var stamped := s.objs[which].(lastUsed := Some(s.now));
    var t := Finish(s, which);
    assert t.objs == s.objs[which := stamped] && t.disk == s.disk[which := stamped];
  }

  lemma RenewCarries(s: Broker, which: string, secret: Option<string>, ttl: Option<int>, scope: Option<string>,
                     id: string, r: Record)
    requires which != id && Carries(s, id, r)
    ensures Carries(Reauthorize(s, which, secret, ttl, scope), id, r)
  {
  }

  lemma {:induction false} RunCarries(s: Broker, es: seq<Event>, t: Broker, id: string, r: Record)
    requires Runs(s, es, t) && Carries(s, id, r) && forall e :: e in es ==> Leaves(e, id)
    ensures Carries(t, id, r)
    decreases |es|
  {
    if es == [] {
    } else {
      assert es[0] in es && forall e :: e in es[1..] ==> e in es;
      StepCarries(s, es[0], id, r);
      RunCarries(Apply(s, es[0]), es[1..], t, id, r);
    }
  }

  /** get returns the grant as this record, and list returns it to those who ask for its project or for all. */
  ghost predicate Returned(t: Broker, id: string, r: Record) {
    && Found(t, id).Some? && Found(t, id).value.(lastUsed := None) == r
    && (forall p :: id in Listed(t, p) <==> p == None || p.value == "" || p.value == r.project)
  }

  ghost predicate NotReturned(t: Broker, id: string) {
    Found(t, id) == None && forall p :: id !in Listed(t, p)
  }

  /**
   What becomes of a grant in memory that nobody revokes, renews or tears: get and list return it,
   unchanged, exactly until its expiry.
   */
  lemma ReturnedExactly(s: Broker, es: seq<Event>, t: Broker, id: string)
    requires Inv(s) && id in s.mem && Runs(s, es, t)
    requires forall e :: e in es ==> Leaves(e, id)
    ensures Unexpired(s.objs[id].expiresAt, t.now) ==> Returned(t, id, Unstamped(s.objs[id]))
    ensures !Unexpired(s.objs[id].expiresAt, t.now) ==> NotReturned(t, id)
  {
    RunInv(s, es, t);
    RunCarries(s, es, t, id, Unstamped(s.objs[id]));
    ClockRuns(s, es, t);
    if Unexpired(s.objs[id].expiresAt, t.now) {
      KeptUntilExpiry(s, es, t, id);
    }
  }

  /**
   A grant created at time s.now is returned by get and list, as it was given, exactly until its
   time to live is over, and for ever without one or with 0: through every run that does not
   revoke or renew it or tear its file.
   */
  lemma CreatedUntilDeadline(s: Broker, id: string, project: string, scope: string, sealed: string, ttl: Option<int>,
                             es: seq<Event>, t: Broker)
    requires Inv(s) && id !in s.used && Runs(Apply(s, Creates(id, project, scope, sealed, ttl)), es, t)
    requires forall e :: e in es ==> Leaves(e, id)
    ensures ttl == None || ttl.value == 0 ==> Returned(t, id, Record(project, scope, sealed, Never, None, false))
    ensures ttl.Some? && ttl.value != 0 && t.now < s.now + ttl.value ==>
              Returned(t, id, Record(project, scope, sealed, At(s.now + ttl.value), None, false))
    ensures ttl.Some? && ttl.value != 0 && t.now >= s.now + ttl.value ==> NotReturned(t, id)
  {
    var u := Apply(s, Creates(id, project, scope, sealed, ttl));
    StepInv(s, Creates(id, project, scope, sealed, ttl));
    ReturnedExactly(u, es, t, id);
  }

  /**
   A grant in memory that is renewed is returned with the new secret and scope, or the old ones where
   none is given, exactly until the new time to live is over, or its old expiry where none is given.
   */
  lemma RenewedUntilDeadline(s: Broker, id: string, secret: Option<string>, ttl: Option<int>, scope: Option<string>,
                             es: seq<Event>, t: Broker)
    requires Inv(s) && id in s.mem && Runs(Apply(s, Reauthorizes(id, secret, ttl, scope)), es, t)
    requires forall e :: e in es ==> Leaves(e, id)
    ensures var r, deadline := s.objs[id], if ttl.Some? then At(s.now + ttl.value) else s.objs[id].expiresAt;
            && (Unexpired(deadline, t.now) ==>
                  Returned(t, id, Record(r.project, if scope.Some? then scope.value else r.scope,
                                         if secret.Some? then secret.value else r.sealed, deadline, None, false)))
            && (!Unexpired(deadline, t.now) ==> NotReturned(t, id))
  {
    StepInv(s, Reauthorizes(id, secret, ttl, scope));
    ReturnedExactly(Apply(s, Reauthorizes(id, secret, ttl, scope)), es, t, id);
  }

  // ---------------------------------------------------------------------------
  // The file of a revoked grant

  lemma StepFileGone(s: Broker, e: Event, id: string)
    requires Inv(s) && Enabled(s, e) && Gone(s, id) && id !in s.disk && id !in s.inflight
    ensures id !in Apply(s, e).disk && id !in Apply(s, e).inflight
  {
  }

  lemma {:induction false} RunFileGone(s: Broker, es: seq<Event>, t: Broker, id: string)
    requires Inv(s) && Runs(s, es, t) && Gone(s, id) && id !in s.disk && id !in s.inflight
    ensures id !in t.disk
    decreases |es|
  {
    if es != [] {
      StepInv(s, es[0]);
      StepGone(s, es[0], id);
      StepFileGone(s, es[0], id);
      RunFileGone(Apply(s, es[0]), es[1..], t, id);
    }
  }

  /** Some continuation of a revocation puts the file back. */
  ghost predicate FileReturns(s: Broker, id: string) {
    exists es, t :: Runs(Revoke(s, id), es, t) && id in t.disk
  }

  /**
   Revoking deletes the sealed file, and the file stays deleted in every continuation, exactly
   when no proxied call holds the grant at that moment.
   */
  lemma FileStaysDeleted(s: Broker, id: string)
    requires Inv(s) && id in s.mem
    ensures id !in Revoke(s, id).disk
    ensures FileReturns(s, id) <==> id in s.inflight
  {
    var u := Revoke(s, id);
    StepInv(s, Revokes(id));
    if id in s.inflight {
      var t := Finish(u, id);
      assert Runs(u, [Finishes(id)], t) by {
        assert [Finishes(id)][1..] == [] && Runs(t, [], t);
      }
    } else if FileReturns(s, id) {
      var es, t :| Runs(u, es, t) && id in t.disk;
      RunFileGone(u, es, t, id);
    }
  }

  /**
   Expiry by itself does not end a grant, being met by get, list or cleanup does: a grant still
   in memory is renewed by any positive time to live, and ended by any other.
   */
  lemma RenewedWhileInMemory(s: Broker, id: string, secret: Option<string>, ttl: Option<int>, scope: Option<string>)
    requires Inv(s)
    ensures Found(Reauthorize(s, id, secret, ttl, scope), id).Some?
            <==> id in s.mem && (if ttl.Some? then ttl.value > 0 else !IsExpired(s.objs[id], s.now))
  {
  }

  // ---------------------------------------------------------------------------
  // Deleting without revoking

  /**
   The grant is out of memory, and neither its file nor an object that a proxied call holds is
   alive: whatever happens, it stays so.
   */
  predicate Buried(s: Broker, id: string) {
    && Gone(s, id)
    && (id in s.disk ==> Dead(s.disk[id], s.now))
    && (id in s.inflight && id in s.objs ==> Dead(s.objs[id], s.now))
  }

  lemma StepBuried(s: Broker, e: Event, id: string)
    requires Enabled(s, e) && Buried(s, id)
    ensures Buried(Apply(s, e), id)
  {
    match e
    case Finishes(which) =>
      var r := s.objs[which].(lastUsed := Some(s.now));
      assert Finish(s, which).objs == s.objs[which := r] && Finish(s, which).disk == s.disk[which := r];
    case Ticks(delay) =>
    case _ =>
  }

  lemma {:induction false} RunBuried(s: Broker, es: seq<Event>, t: Broker, id: string)
    requires Runs(s, es, t) && Buried(s, id)
    ensures Buried(t, id)
    decreases |es|
  {
    if es != [] {
      StepBuried(s, es[0], id);
      RunBuried(Apply(s, es[0]), es[1..], t, id);
    }
  }

  /** Some continuation in which get returns the grant. */
  ghost predicate FoundAgain(s: Broker, id: string) {
    exists es, t :: Runs(s, es, t) && Found(t, id).Some?
  }

  /**
   delete, unlike revoke, does not mark the grant. A grant that is deleted so can be returned
   again, once a proxied call has saved it and the broker has restarted, exactly if it was alive
   and a proxied call held it.
   */
  lemma DeletedReturns(s: Broker, id: string)
    requires Inv(s) && id in s.mem
    ensures FoundAgain(Delete(s, id), id) <==> id in s.inflight && Found(s, id).Some?
  {
    var u := Delete(s, id);
    if id in s.inflight && Found(s, id).Some? {
      SavedAndRecovered(u, id);
    } else {
      assert Buried(u, id);
      forall es, t | Runs(u, es, t) ensures Found(t, id) == None {
        RunBuried(u, es, t, id);
      }
    }
  }

  /** The call saves the grant as it ends, and the broker restarts. */
  lemma SavedAndRecovered(u: Broker, id: string)
    requires id in u.inflight && id in u.objs && !Dead(u.objs[id], u.now)
    ensures FoundAgain(u, id)
  {
    var v := Finish(u, id);
    var t := Restart(v, {});
    assert Runs(v, [Restarts({})], t) by {
      assert [Restarts({})][1..] == [] && Runs(t, [], t);
    }
    var es := [Finishes(id), Restarts({})];
    assert es[1..] == [Restarts({})] && Runs(u, es, t);
    assert v.disk[id] == u.objs[id].(lastUsed := Some(u.now));
  }

  // ---------------------------------------------------------------------------
  // Such runs exist

  lemma CreatedAndCalled() returns (es: seq<Event>, s: Broker)
    ensures Runs(Started(0, map[], {}), es, s)
    ensures "g" in s.mem && "g" in s.inflight && Found(s, "g").Some?
  {
    var r := Started(0, map[], {});
    var e1, e2 := Creates("g", "p", "", "", None), Begins("g");
    var u := Apply(r, e1);
    s := Apply(u, e2);
    es := [e1, e2];
    assert es[1..] == [e2] && [e2][1..] == [] && Runs(s, [], s);
    assert Runs(u, [e2], s);
  }

  /** A grant that is created and called: from here neither a revocation nor a deletion is final. */
  lemma CalledGrant() returns (es: seq<Event>, s: Broker)
    ensures Runs(Started(0, map[], {}), es, s) && Inv(s) && "g" in s.mem && "g" in s.inflight
    ensures FileReturns(s, "g") && FoundAgain(Delete(s, "g"), "g")
  {
    es, s := CreatedAndCalled();
    StartedInv(0, map[], {});
    RunInv(Started(0, map[], {}), es, s);
    FileStaysDeleted(s, "g");
    DeletedReturns(s, "g");
  }
}
