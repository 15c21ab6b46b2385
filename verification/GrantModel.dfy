/**
 The credential broker of `proxy/broker.py` as a step system: grant objects in memory, one
 file a grant, proxied calls that keep a reference to their grant across an await and save
 it again when they end, and restarts that read the files back. A grant object is named by
 its id, since an id is drawn once and every other access goes through the `_grants` dict.
 */
module GrantModel {
  import opened Options

  /** The `expires_at` string: absent or empty, a point in time, or text that is not one. */
  datatype Expiry = Never | At(time: int) | Unparsable

  /** What the broker may change about a grant, and the project that it belongs to. */
  datatype Record = Record(
    project: string, scope: string, sealed: string, expiresAt: Expiry, lastUsed: Option<int>, revoked: bool)

  datatype Broker = Broker(
    now: int,
    objs: map<string, Record>,      // the grant objects of the running process
    mem: set<string>,               // the keys of _grants
    disk: map<string, Record>,      // the grant files
    inflight: multiset<string>,     // proxied calls between get and the save at their end
    used: set<string>)              // every id drawn so far

  predicate IsExpired(r: Record, now: int) {
    match r.expiresAt
    case Never => false
    case At(time) => now >= time
    case Unparsable => true
  }

  predicate Dead(r: Record, now: int) {
    IsExpired(r, now) || r.revoked
  }

  // ---------------------------------------------------------------------------
  // The operations

  /** A time to live of zero or none means no expiry when a grant is made. */
  function FirstExpiry(now: int, ttl: Option<int>): Expiry {
    match ttl
    case None => Never
    case Some(seconds) => if seconds == 0 then Never else At(now + seconds)
  }

  function Save(s: Broker, id: string): Broker
    requires id in s.objs
  {
    s.(disk := s.disk[id := s.objs[id]])
  }

  function Delete(s: Broker, id: string): Broker {
    s.(mem := s.mem - {id}, disk := s.disk - {id})
  }

  function Create(s: Broker, id: string, project: string, scope: string, sealed: string, ttl: Option<int>): Broker {
    var r := Record(project, scope, sealed, FirstExpiry(s.now, ttl), None, false);
    s.(objs := s.objs[id := r], mem := s.mem + {id}, disk := s.disk[id := r], used := s.used + {id})
  }

  /** What get returns, and the state it leaves: an expired grant is deleted. */
  function Found(s: Broker, id: string): Option<Record> {
    if id in s.mem && id in s.objs && !Dead(s.objs[id], s.now) then Some(s.objs[id]) else None
  }

  function Get(s: Broker, id: string): Broker {
    if id in s.mem && id in s.objs && IsExpired(s.objs[id], s.now) then Delete(s, id) else s
  }

  /** The project filter of list; no project, or an empty one, selects every grant. */
  predicate Selects(project: Option<string>, r: Record) {
    project == None || project.value == "" || r.project == project.value
  }

  function Listed(s: Broker, project: Option<string>): set<string> {
    set id | id in s.mem && id in s.objs && Selects(project, s.objs[id]) && !Dead(s.objs[id], s.now)
  }

  function Spent(s: Broker, project: Option<string>): set<string> {
    set id | id in s.mem && id in s.objs && Selects(project, s.objs[id]) && Dead(s.objs[id], s.now)
  }

  function List(s: Broker, project: Option<string>): Broker {
    s.(mem := s.mem - Spent(s, project), disk := s.disk - Spent(s, project))
  }

  function Revoke(s: Broker, id: string): Broker {
    if id in s.mem && id in s.objs then
      Delete(s.(objs := s.objs[id := s.objs[id].(revoked := true)]), id)
    else s
  }

  /** reauthorize asks neither whether the grant has expired nor whether it was revoked. */
  function Renewed(r: Record, now: int, secret: Option<string>, ttl: Option<int>, scope: Option<string>): Record {
    r.(sealed := (if secret.Some? then secret.value else r.sealed),
       expiresAt := (if ttl.Some? then At(now + ttl.value) else r.expiresAt),
       scope := (if scope.Some? then scope.value else r.scope))
  }

  function Reauthorize(s: Broker, id: string, secret: Option<string>, ttl: Option<int>, scope: Option<string>): Broker {
    if id in s.mem && id in s.objs then
      Save(s.(objs := s.objs[id := Renewed(s.objs[id], s.now, secret, ttl, scope)]), id)
    else s
  }

  function Overdue(s: Broker): set<string> {
    set id | id in s.mem && id in s.objs && IsExpired(s.objs[id], s.now)
  }

  function Cleanup(s: Broker): Broker {
    s.(mem := s.mem - Overdue(s), disk := s.disk - Overdue(s))
  }

  /** A proxied call up to its first await: it keeps the grant that get returned. */
  function Begin(s: Broker, id: string): Broker {
    if Found(s, id).Some? then s.(inflight := s.inflight + multiset{id}) else Get(s, id)
  }

  /** The end of a proxied call: stamp the grant and save it, wherever it is by now. */
  function Finish(s: Broker, id: string): Broker
    requires id in s.objs
  {
    Save(s.(objs := s.objs[id := s.objs[id].(lastUsed := Some(s.now))], inflight := s.inflight - multiset{id}), id)
  }

  /** recover: the files of dead grants are unlinked, the others become the grants in memory. */
  function Recovered(disk: map<string, Record>, now: int): map<string, Record> {
    map id | id in disk && !Dead(disk[id], now) :: disk[id]
  }

  /** The process ends, and a new one recovers; the files in `torn` cannot be read, and are unlinked. */
  function Restart(s: Broker, torn: set<string>): Broker {
    var kept := Recovered(s.disk - torn, s.now);
    Broker(s.now, kept, kept.Keys, kept, multiset{}, s.used)
  }

  datatype Event =
    | Creates(id: string, project: string, scope: string, sealed: string, ttl: Option<int>)
    | Gets(id: string)
    | Lists(filter: Option<string>)
    | Revokes(id: string)
    | Reauthorizes(id: string, secret: Option<string>, ttl: Option<int>, newScope: Option<string>)
    | Cleans
    | Begins(id: string)
    | Finishes(id: string)
    | Abandons(id: string)
    | Ticks(delay: nat)
    | Restarts(torn: set<string>)

  predicate Enabled(s: Broker, e: Event) {
    match e
    case Creates(id, _, _, _, _) => id !in s.used
    case Finishes(id) => id in s.inflight && id in s.objs
    case Abandons(id) => id in s.inflight
    case _ => true
  }

  function Apply(s: Broker, e: Event): Broker
    requires Enabled(s, e)
  {
    match e
    case Creates(id, project, scope, sealed, ttl) => Create(s, id, project, scope, sealed, ttl)
    case Gets(id) => Get(s, id)
    case Lists(project) => List(s, project)
    case Revokes(id) => Revoke(s, id)
    case Reauthorizes(id, secret, ttl, scope) => Reauthorize(s, id, secret, ttl, scope)
    case Cleans => Cleanup(s)
    case Begins(id) => Begin(s, id)
    case Finishes(id) => Finish(s, id)
    case Abandons(id) => s.(inflight := s.inflight - multiset{id})
    case Ticks(delay) => s.(now := s.now + delay)
    case Restarts(torn) => Restart(s, torn)
  }

  /** A first start over whatever files are there. */
  function Started(now: int, disk: map<string, Record>, used: set<string>): Broker {
    Restart(Broker(now, map[], {}, disk, multiset{}, used), {})
  }

  // ---------------------------------------------------------------------------
  // What every step keeps

  /** The expiry has not passed: there is none, or it is a time after now. */
  predicate Unexpired(expiry: Expiry, now: int) {
    expiry == Never || (expiry.At? && now < expiry.time)
  }

  /** A grant in memory is not revoked and its file holds the same record. */
  predicate Mirrored(s: Broker) {
    forall id :: id in s.mem ==> id in s.objs && id in s.disk && s.disk[id] == s.objs[id] && !s.objs[id].revoked
  }

  /** An object that has left memory, held by a proxied call, is dead, and so is a file without a grant. */
  predicate LeftDead(s: Broker) {
    && (forall id :: id in s.objs && id !in s.mem ==> Dead(s.objs[id], s.now))
    && (forall id :: id in s.disk && id !in s.mem ==> Dead(s.disk[id], s.now))
  }

  predicate Known(s: Broker) {
    && (forall id :: id in s.objs ==> id in s.used)
    && (forall id :: id in s.disk ==> id in s.used)
    && (forall id :: id in s.inflight ==> id in s.objs)
  }

  predicate Inv(s: Broker) {
    Mirrored(s) && LeftDead(s) && Known(s)
  }

  lemma DeadStaysDead(r: Record, now: int, later: int)
    requires Dead(r, now) && now <= later
    ensures Dead(r, later)
  {
  }

  lemma StepInv(s: Broker, e: Event)
    requires Inv(s) && Enabled(s, e)
    ensures Inv(Apply(s, e))
  {
    match e
    case Creates(id, project, scope, sealed, ttl) => CreateInv(s, id, project, scope, sealed, ttl);
    case Gets(id) => GetInv(s, id);
    case Lists(project) => ListInv(s, project);
    case Revokes(id) => RevokeInv(s, id);
    case Reauthorizes(id, secret, ttl, scope) => ReauthorizeInv(s, id, secret, ttl, scope);
    case Cleans => CleanupInv(s);
    case Begins(id) => GetInv(s, id);
    case Finishes(id) => FinishInv(s, id);
    case Abandons(id) => AbandonInv(s, id);
    case Ticks(delay) => TickInv(s, delay);
    case Restarts(torn) => RestartInv(s, torn);
  }

  lemma CreateInv(s: Broker, id: string, project: string, scope: string, sealed: string, ttl: Option<int>)
    requires Inv(s) && id !in s.used
    ensures Inv(Create(s, id, project, scope, sealed, ttl))
  {
  }

  lemma GetInv(s: Broker, id: string)
    requires Inv(s)
    ensures Inv(Get(s, id))
  {
  }

  lemma RevokeInv(s: Broker, id: string)
    requires Inv(s)
    ensures Inv(Revoke(s, id))
  {
  }

  lemma ReauthorizeInv(s: Broker, id: string, secret: Option<string>, ttl: Option<int>, scope: Option<string>)
    requires Inv(s)
    ensures Inv(Reauthorize(s, id, secret, ttl, scope))
  {
    if id in s.mem {
      var r := Renewed(s.objs[id], s.now, secret, ttl, scope);
      var t := Reauthorize(s, id, secret, ttl, scope);
      assert t.objs == s.objs[id := r] && t.disk == s.disk[id := r] && t.mem == s.mem;
    }
  }

  lemma CleanupInv(s: Broker)
    requires Inv(s)
    ensures Inv(Cleanup(s))
  {
    var t := Cleanup(s);
    forall id | id in t.objs && id !in t.mem ensures Dead(t.objs[id], t.now) {
      assert id !in s.mem || id in Overdue(s);
    }
  }

  lemma AbandonInv(s: Broker, id: string)
    requires Inv(s)
    ensures Inv(s.(inflight := s.inflight - multiset{id}))
  {
  }

  lemma RestartInv(s: Broker, torn: set<string>)
    requires Inv(s)
    ensures Inv(Restart(s, torn))
  {
  }

  lemma FinishInv(s: Broker, id: string)
    requires Inv(s) && id in s.objs
    ensures Inv(Finish(s, id))
  {
    var r := s.objs[id].(lastUsed := Some(s.now));
    assert Dead(s.objs[id], s.now) ==> Dead(r, s.now);
    var t := Finish(s, id);
    assert t.objs == s.objs[id := r] && t.disk == s.disk[id := r] && t.mem == s.mem;
  }

  lemma TickInv(s: Broker, delay: nat)
    requires Inv(s)
    ensures Inv(s.(now := s.now + delay))
  {
    forall id | id in s.objs && id !in s.mem ensures Dead(s.objs[id], s.now + delay) {
      DeadStaysDead(s.objs[id], s.now, s.now + delay);
    }
    forall id | id in s.disk && id !in s.mem ensures Dead(s.disk[id], s.now + delay) {
      DeadStaysDead(s.disk[id], s.now, s.now + delay);
    }
  }

  lemma ListInv(s: Broker, project: Option<string>)
    requires Inv(s)
    ensures Inv(List(s, project))
  {
    var t := List(s, project);
    forall id | id in t.objs && id !in t.mem ensures Dead(t.objs[id], t.now) {
      assert id !in s.mem || id in Spent(s, project);
    }
  }
}
