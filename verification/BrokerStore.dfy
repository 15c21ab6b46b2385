/**
 The broker's objects: `_grants` is a dict of Grant objects that are updated in place, also
 by proxied calls that still hold a grant the dict has dropped. Each method names the step of
 the grant model that it is.
 */
module BrokerStore {
  import opened GrantModel
  import opened Options

  class Grant {
    const id: string
    var project: string
    var scope: string
    var sealed: string
    var expiresAt: Expiry
    var lastUsed: Option<int>
    var revoked: bool

    constructor (id: string, r: Record)
      ensures this.id == id && Fields() == r
    {
      this.id := id;
      project, scope, sealed := r.project, r.scope, r.sealed;
      expiresAt, lastUsed, revoked := r.expiresAt, r.lastUsed, r.revoked;
    }

    function Fields(): Record
      reads this
    {
      Record(project, scope, sealed, expiresAt, lastUsed, revoked)
    }
  }

  class BrokerStore {
    var now: int
    var grants: map<string, Grant>
    var files: map<string, Record>
    ghost var objects: map<string, Grant>   // every Grant object of this process
    ghost var inflight: multiset<string>
    ghost var used: set<string>

    /** The dict holds the objects under their own ids. */
    ghost predicate Valid()
      reads this`objects, this`grants, objects.Values
    {
      && (forall id :: id in objects ==> objects[id].id == id)
      && (forall id :: id in grants ==> id in objects && grants[id] == objects[id])
    }

    ghost function Objs(): map<string, Record>
      reads this`objects, objects.Values
    {
      map id | id in objects :: objects[id].Fields()
    }

    ghost function State(): Broker
      reads this, objects.Values
    {
      Broker(now, Objs(), grants.Keys, files, inflight, used)
    }

    /** A new process over the files that the last one left; those in torn cannot be read. */
    constructor Recover(now: int, disk: map<string, Record>, torn: set<string>, ghost drawn: set<string>)
      requires disk.Keys <= drawn
      ensures Valid() && State() == Restart(Broker(now, map[], {}, disk, multiset{}, drawn), torn)
      ensures forall id :: id in objects ==> fresh(objects[id])
      ensures forall id :: id in grants <==>
                id in disk && id !in torn && Unexpired(disk[id].expiresAt, now) && !disk[id].revoked
      ensures forall id :: id in grants ==> grants[id].Fields() == disk[id]
      ensures files.Keys == grants.Keys && forall id :: id in files ==> files[id] == disk[id]
    {
      this.now, grants, files, objects, inflight, used := now, map[], disk, map[], multiset{}, drawn;
      new;
      LoadAll(disk, torn);
      assert forall id :: id in grants ==> Objs()[id] == grants[id].Fields();
      assert grants.Keys == Objs().Keys;
    }

    /** One file of recover: an unreadable one or a dead grant is unlinked, any other is an object in the dict. */
    method LoadFile(id: string, torn: bool)
      requires Valid() && id in files && id !in objects && grants == objects
      modifies this`grants, this`objects, this`files
      ensures Valid() && grants == objects
      ensures torn || Dead(old(files)[id], now) ==> objects == old(objects) && files == old(files) - {id}
      ensures !torn && !Dead(old(files)[id], now) ==> files == old(files) && id in objects && fresh(objects[id])
      ensures !torn && !Dead(old(files)[id], now) ==> objects == old(objects)[id := objects[id]]
      ensures Objs() == if torn || Dead(old(files)[id], now) then old(Objs()) else old(Objs())[id := old(files)[id]]
    {
      if torn || Dead(files[id], now) {
        files := files - {id};
      } else {
        var _ := Add(id, files[id]);
      }
    }

    /** The state of the loop of recover when the files in todo are still to come. */
    ghost predicate Loaded(disk: map<string, Record>, torn: set<string>, todo: set<string>)
      reads this, objects.Values
    {
      Valid() && grants == objects && files == Partly(disk, torn, todo, now) && Objs() == files - todo
    }

    method LoadNext(id: string, torn: bool,
                    ghost disk: map<string, Record>, ghost cut: set<string>, ghost todo: set<string>)
      requires Loaded(disk, cut, todo) && id in todo && id in disk && torn == (id in cut)
      modifies this`grants, this`objects, this`files
      ensures Loaded(disk, cut, todo - {id})
      ensures forall i :: i in objects ==> (i in old(objects) && objects[i] == old(objects)[i]) || fresh(objects[i])
    {
      assert objects.Keys == Objs().Keys;
      PartlyOne(disk, cut, todo, id, now);
      LoadFile(id, torn);
    }

    /** The loop of recover over the files. */
    method LoadAll(ghost disk: map<string, Record>, torn: set<string>)
      requires objects == map[] && grants == map[] && files == disk
      modifies this`grants, this`objects, this`files
      ensures Valid() && grants == objects && files == Recovered(disk - torn, now) && Objs() == files
      ensures forall id :: id in objects ==> fresh(objects[id])
    {
      LoadEach(disk, torn);
      PartlyEnds(disk, torn, now);
    }

    method LoadEach(ghost disk: map<string, Record>, torn: set<string>)
      requires objects == map[] && grants == map[] && files == disk
      modifies this`grants, this`objects, this`files
      ensures Loaded(disk, torn, {})
      ensures forall id :: id in objects ==> fresh(objects[id])
    {
      PartlyStarts(disk, torn, now);
      var todo := files.Keys;
      while todo != {}
        invariant todo <= disk.Keys && Loaded(disk, torn, todo)
        invariant forall id :: id in objects ==> fresh(objects[id])
        decreases |todo|
      {
        var id :| id in todo;
        LoadNext(id, id in torn, disk, torn, todo);
        todo := todo - {id};
      }
    }

    /** The files when recover has yet to look at those in todo. */
    static ghost function Partly(disk: map<string, Record>, torn: set<string>, todo: set<string>, now: int)
      : map<string, Record>
    {
      map id | id in disk && (id in todo || (id !in torn && !Dead(disk[id], now))) :: disk[id]
    }

    static lemma PartlyStarts(disk: map<string, Record>, torn: set<string>, now: int)
      ensures Partly(disk, torn, disk.Keys, now) == disk && disk - disk.Keys == map[]
    {
    }

    static lemma PartlyEnds(disk: map<string, Record>, torn: set<string>, now: int)
      ensures Partly(disk, torn, {}, now) == Recovered(disk - torn, now)
      ensures Partly(disk, torn, {}, now) - {} == Partly(disk, torn, {}, now)
    {
    }

    static lemma PartlyOne(disk: map<string, Record>, torn: set<string>, todo: set<string>, id: string, now: int)
      requires id in todo && id in disk
      ensures var before, after := Partly(disk, torn, todo, now), Partly(disk, torn, todo - {id}, now);
              && after == (if id in torn || Dead(disk[id], now) then before - {id} else before)
              && after - (todo - {id})
                 == (if id in torn || Dead(disk[id], now) then before - todo else (before - todo)[id := disk[id]])
    {
    }

    /** `self._grants[grant.id] = grant` for an object that is not in the dict yet. */
    method Put(g: Grant)
      requires Valid() && g.id !in objects
      modifies this`grants, this`objects
      ensures Valid() && Objs() == old(Objs())[g.id := g.Fields()]
      ensures objects == old(objects)[g.id := g] && grants == old(grants)[g.id := g]
    {
      grants, objects := grants[g.id := g], objects[g.id := g];
    }

    /** A new Grant object, entered in the dict under its id. */
    method Add(id: string, r: Record) returns (g: Grant)
      requires Valid() && id !in objects
      modifies this`grants, this`objects
      ensures Valid() && Objs() == old(Objs())[id := r]
      ensures fresh(g) && objects == old(objects)[id := g] && grants == old(grants)[id := g] && g.Fields() == r
    {
      g := new Grant(id, r);
      Put(g);
    }

    /** The new grant is in the dict, and saved. */
    method Enter(id: string, r: Record) returns (g: Grant)
      requires Valid() && id !in objects
      modifies this`grants, this`objects, this`files, this`used
      ensures Valid() && Objs() == old(Objs())[id := r] && files == old(files)[id := r] && used == old(used) + {id}
      ensures fresh(g) && objects == old(objects)[id := g] && grants == old(grants)[id := g] && g.Fields() == r
    {
      g := Add(id, r);
      files := files[id := r];
      used := used + {id};
    }

    method CreateGrant(id: string, project: string, scope: string, sealed: string, ttl: Option<int>) returns (g: Grant)
      requires Valid() && id !in used && id !in objects
      modifies this
      ensures Valid() && State() == Create(old(State()), id, project, scope, sealed, ttl)
      ensures objects == old(objects)[id := g] && fresh(g) && grants == old(grants)[id := g]
      ensures g.project == project && g.scope == scope && g.sealed == sealed && g.lastUsed == None && !g.revoked
      ensures g.expiresAt == if ttl == None || ttl == Some(0) then Never else At(now + ttl.value)
      ensures files == old(files)[id := g.Fields()]
    {
      var expiresAt := if ttl.Some? && ttl.value != 0 then At(now + ttl.value) else Never;
      var r := Record(project, scope, sealed, expiresAt, None, false);
      CreateFields(State(), id, r, ttl);
      g := Enter(id, r);
    }

    static lemma CreateFields(s: Broker, id: string, r: Record, ttl: Option<int>)
      requires r.expiresAt == FirstExpiry(s.now, ttl) && r.lastUsed == None && !r.revoked
      ensures Create(s, id, r.project, r.scope, r.sealed, ttl)
              == Broker(s.now, s.objs[id := r], s.mem + {id}, s.disk[id := r], s.inflight, s.used + {id})
    {
    }

    method DeleteGrant(id: string) returns (deleted: bool)
      modifies this`grants, this`files
      ensures grants == old(grants) - {id} && files == old(files) - {id}
      ensures deleted == (id in old(grants))
    {
      files := files - {id};
      deleted := id in grants;
      grants := grants - {id};
    }

    method GetGrant(id: string) returns (g: Option<Grant>)
      requires Valid()
      modifies this`grants, this`files
      ensures Valid() && State() == Get(old(State()), id)
      ensures g.Some? == Found(old(State()), id).Some?
      ensures g.Some? ==> id in objects && g.value == objects[id]
      ensures g.Some? <==> id in old(grants) && Unexpired(objects[id].expiresAt, now) && !objects[id].revoked
      ensures id in old(grants) && !Unexpired(objects[id].expiresAt, now) ==>
                grants == old(grants) - {id} && files == old(files) - {id}
      ensures id !in old(grants) || Unexpired(objects[id].expiresAt, now) ==>
                grants == old(grants) && files == old(files)
    {
      ghost var next := Get(State(), id);
      if id !in grants {
        return None;
      }
      var grant := grants[id];
      if IsExpired(grant.Fields(), now) {
        var _ := DeleteGrant(id);
        assert State() == next;
        return None;
      }
      if grant.revoked {
        return None;
      }
      return Some(grant);
    }

    /** Marking one object changes its record alone. */
    method Mark(g: Grant)
      requires Valid() && g.id in objects && objects[g.id] == g
      modifies g
      ensures Valid() && Objs() == old(Objs())[g.id := old(g.Fields()).(revoked := true)]
      ensures g.revoked
    {
      g.revoked := true;
    }

    static lemma RevokeFields(s: Broker, id: string, r: Record)
      requires id in s.mem && id in s.objs && r == s.objs[id].(revoked := true)
      ensures Revoke(s, id) == Broker(s.now, s.objs[id := r], s.mem - {id}, s.disk - {id}, s.inflight, s.used)
    {
    }

    method RevokeGrant(id: string) returns (ok: bool)
      requires Valid()
      modifies this, objects.Values
      ensures Valid() && State() == Revoke(old(State()), id)
      ensures ok == (id in old(grants)) && objects == old(objects)
      ensures grants == old(grants) - {id} && (ok ==> old(grants)[id].revoked && files == old(files) - {id})
      ensures !ok ==> files == old(files)
    {
      ok := id in grants;
      if ok {
        var grant := grants[id];
        RevokeFields(State(), id, grant.Fields().(revoked := true));
        Mark(grant);
        var _ := DeleteGrant(id);
      }
    }

    method Renew(grant: Grant, secret: Option<string>, ttl: Option<int>, scope: Option<string>)
      modifies grant
      ensures grant.Fields() == Renewed(old(grant.Fields()), now, secret, ttl, scope)
      ensures grant.sealed == (if secret.Some? then secret.value else old(grant.sealed))
      ensures grant.expiresAt == (if ttl.Some? then At(now + ttl.value) else old(grant.expiresAt))
      ensures grant.scope == (if scope.Some? then scope.value else old(grant.scope))
    {
      if secret.Some? {
        grant.sealed := secret.value;
      }
      if ttl.Some? {
        grant.expiresAt := At(now + ttl.value);
      }
      if scope.Some? {
        grant.scope := scope.value;
      }
    }

    /** Renewing one object changes its record alone. */
    method RenewObject(g: Grant, secret: Option<string>, ttl: Option<int>, scope: Option<string>)
      requires Valid() && g.id in objects && objects[g.id] == g
      modifies g
      ensures Valid() && Objs() == old(Objs())[g.id := g.Fields()]
      ensures g.Fields() == Renewed(old(g.Fields()), now, secret, ttl, scope)
      ensures g.sealed == (if secret.Some? then secret.value else old(g.sealed))
      ensures g.expiresAt == (if ttl.Some? then At(now + ttl.value) else old(g.expiresAt))
      ensures g.scope == (if scope.Some? then scope.value else old(g.scope))
    {
      Renew(g, secret, ttl, scope);
    }

    static lemma ReauthorizeFields(s: Broker, id: string, secret: Option<string>, ttl: Option<int>,
                                   scope: Option<string>, r: Record)
      requires id in s.mem && id in s.objs && r == Renewed(s.objs[id], s.now, secret, ttl, scope)
      ensures Reauthorize(s, id, secret, ttl, scope)
              == Broker(s.now, s.objs[id := r], s.mem, s.disk[id := r], s.inflight, s.used)
    {
    }

    method ReauthorizeGrant(id: string, secret: Option<string>, ttl: Option<int>, scope: Option<string>)
      returns (g: Option<Grant>)
      requires Valid()
      modifies this, objects.Values
      ensures Valid() && State() == Reauthorize(old(State()), id, secret, ttl, scope)
      ensures g.Some? == (id in old(grants)) && objects == old(objects)
      ensures g.Some? ==> g.value == old(grants)[id]
      ensures g.Some? ==>
                && g.value.sealed == (if secret.Some? then secret.value else old(grants[id].sealed))
                && g.value.expiresAt == (if ttl.Some? then At(now + ttl.value) else old(grants[id].expiresAt))
                && g.value.scope == (if scope.Some? then scope.value else old(grants[id].scope))
                && files == old(files)[id := g.value.Fields()]
      ensures grants == old(grants) && (g == None ==> files == old(files))
    {
      if id !in grants {
        return None;
      }
      var grant := grants[id];
      ReauthorizeFields(State(), id, secret, ttl, scope, Renewed(grant.Fields(), now, secret, ttl, scope));
      RenewObject(grant, secret, ttl, scope);
      SaveGrant(grant);
      return Some(grant);
    }

    /** A proxied call up to its first await. */
    method ProxyStart(id: string) returns (g: Option<Grant>)
      requires Valid()
      modifies this
      ensures Valid() && State() == Begin(old(State()), id)
      ensures g.Some? == Found(old(State()), id).Some? && objects == old(objects)
      ensures g.Some? ==> id in objects && g.value == objects[id] && id in inflight
      ensures g.Some? <==> id in old(grants) && Unexpired(objects[id].expiresAt, now) && !objects[id].revoked
    {
      g := GetGrant(id);
      if g.Some? {
        inflight := inflight + multiset{id};
      }
    }

    /** Stamping one object changes its record alone. */
    method Stamp(g: Grant)
      requires Valid() && g.id in objects && objects[g.id] == g
      modifies g
      ensures Valid() && Objs() == old(Objs())[g.id := old(g.Fields()).(lastUsed := Some(now))]
      ensures g.Fields() == old(g.Fields()).(lastUsed := Some(now))
    {
      g.lastUsed := Some(now);
    }

    static lemma FinishFields(s: Broker, id: string, r: Record)
      requires id in s.objs && r == s.objs[id].(lastUsed := Some(s.now))
      ensures Finish(s, id)
              == Broker(s.now, s.objs[id := r], s.mem, s.disk[id := r], s.inflight - multiset{id}, s.used)
    {
    }

    /** The end of a proxied call, with the grant object that it was given at its start. */
    method ProxyEnd(g: Grant)
      requires Valid() && g.id in inflight && g.id in objects && objects[g.id] == g
      modifies this, g
      ensures Valid() && State() == Finish(old(State()), g.id) && objects == old(objects)
      ensures g.lastUsed == Some(now) && g.revoked == old(g.revoked) && g.expiresAt == old(g.expiresAt)
      ensures files == old(files)[g.id := g.Fields()] && grants == old(grants)
    {
      FinishFields(State(), g.id, g.Fields().(lastUsed := Some(now)));
      Stamp(g);
      SaveUsed(g);
    }

    method SaveUsed(g: Grant)
      modifies this`files, this`inflight
      ensures files == old(files)[g.id := g.Fields()] && inflight == old(inflight) - multiset{g.id}
    {
      SaveGrant(g);
      inflight := inflight - multiset{g.id};
    }

    method SaveGrant(g: Grant)
      modifies this`files
      ensures files == old(files)[g.id := g.Fields()]
    {
      files := files[g.id := g.Fields()];
    }

    /** The second loop of list and of cleanup_expired. */
    method DeleteAll(ids: set<string>)
      modifies this`grants, this`files
      ensures grants == old(grants) - ids && files == old(files) - ids
    {
      var todo := ids;
      while todo != {}
        invariant todo <= ids
        invariant grants == old(grants) - (ids - todo) && files == old(files) - (ids - todo)
        decreases |todo|
      {
        var id :| id in todo;
        var _ := DeleteGrant(id);
        todo := todo - {id};
        assert ids - todo == (ids - (todo + {id})) + {id};
      }
      assert ids - {} == ids;
    }

    /** What the first loop of list decides about each grant: to return it, or to delete it. */
    ghost predicate Sorts(project: Option<string>, listed: set<string>, spent: set<string>)
      reads this`now, this`grants, grants.Values
    {
      && listed <= grants.Keys && spent <= grants.Keys
      && (forall id :: id in grants ==>
            && (id in listed <==> Selects(project, grants[id].Fields()) && !Dead(grants[id].Fields(), now))
            && (id in spent <==> Selects(project, grants[id].Fields()) && Dead(grants[id].Fields(), now)))
    }

    lemma ListSorts(project: Option<string>)
      requires Valid()
      ensures Sorts(project, Listed(State(), project), Spent(State(), project))
    {
      var listed, spent := Listed(State(), project), Spent(State(), project);
      forall id | id in grants
        ensures id in listed <==> Selects(project, grants[id].Fields()) && !Dead(grants[id].Fields(), now)
        ensures id in spent <==> Selects(project, grants[id].Fields()) && Dead(grants[id].Fields(), now)
      {
        assert State().objs[id] == grants[id].Fields();
      }
    }

    /** The grants of `chosen` that the loop has reached. */
    static function Reached(chosen: set<string>, todo: set<string>): set<string> {
      chosen - todo
    }

    static lemma ReachedOne(chosen: set<string>, todo: set<string>, id: string)
      requires id in todo
      ensures Reached(chosen, todo - {id})
              == if id in chosen then Reached(chosen, todo) + {id} else Reached(chosen, todo)
    {
    }

    static lemma ReachedEnds(chosen: set<string>, all: set<string>)
      requires chosen <= all
      ensures Reached(chosen, all) == {} && Reached(chosen, {}) == chosen
    {
    }

    /** One grant of the first loop of list. */
    method SortOne(project: Option<string>, id: string, listedSoFar: set<string>, spentSoFar: set<string>,
                   ghost listed: set<string>, ghost spent: set<string>, ghost todo: set<string>)
      returns (active: set<string>, expired: set<string>)
      requires Sorts(project, listed, spent) && id in grants && id in todo
      requires listedSoFar == Reached(listed, todo) && spentSoFar == Reached(spent, todo)
      ensures active == Reached(listed, todo - {id}) && expired == Reached(spent, todo - {id})
    {
      var grant := grants[id];
      ReachedOne(listed, todo, id);
      ReachedOne(spent, todo, id);
      active, expired := listedSoFar, spentSoFar;
      if project.Some? && project.value != "" && grant.project != project.value {
      } else if IsExpired(grant.Fields(), now) || grant.revoked {
        expired := expired + {id};
      } else {
        active := active + {id};
      }
    }

    /** What the two sets are, said of the grants' own fields. */
    lemma SortedFields(project: Option<string>, listed: set<string>, spent: set<string>)
      requires Sorts(project, listed, spent)
      ensures forall id :: id in listed <==>
                && id in grants && Unexpired(grants[id].expiresAt, now) && !grants[id].revoked
                && (project == None || project == Some("") || project == Some(grants[id].project))
      ensures forall id :: id in spent <==>
                && id in grants && (!Unexpired(grants[id].expiresAt, now) || grants[id].revoked)
                && (project == None || project == Some("") || project == Some(grants[id].project))
    {
    }

    /** The first loop of list. */
    method Sort(project: Option<string>, ghost listed: set<string>, ghost spent: set<string>)
      returns (active: set<string>, expired: set<string>)
      requires Sorts(project, listed, spent)
      ensures active == listed && expired == spent
    {
      active, expired := {}, {};
      var todo := grants.Keys;
      ReachedEnds(listed, todo);
      ReachedEnds(spent, todo);
      while todo != {}
        invariant todo <= grants.Keys
        invariant active == Reached(listed, todo) && expired == Reached(spent, todo)
        decreases |todo|
      {
        var id :| id in todo;
        active, expired := SortOne(project, id, active, expired, listed, spent, todo);
        todo := todo - {id};
      }
    }

    static lemma KeysWithout(all: map<string, Grant>, ids: set<string>)
      ensures forall id :: id in all && id !in all - ids <==> id in all && id in ids
      ensures (all - ids).Keys <= all.Keys && all.Keys - (all - ids).Keys == all.Keys * ids
    {
    }

    /** list up to its second loop. */
    method SortAll(project: Option<string>) returns (active: set<string>, expired: set<string>)
      requires Valid()
      ensures active == Listed(State(), project) && expired == Spent(State(), project)
      ensures forall id :: id in active <==>
                && id in grants && Unexpired(grants[id].expiresAt, now) && !grants[id].revoked
                && (project == None || project == Some("") || project == Some(grants[id].project))
      ensures forall id :: id in expired <==>
                && id in grants && (!Unexpired(grants[id].expiresAt, now) || grants[id].revoked)
                && (project == None || project == Some("") || project == Some(grants[id].project))
    {
      ListSorts(project);
      SortedFields(project, Listed(State(), project), Spent(State(), project));
      active, expired := Sort(project, Listed(State(), project), Spent(State(), project));
    }

    static lemma ListFields(s: Broker, project: Option<string>, expired: set<string>)
      requires expired == Spent(s, project)
      ensures List(s, project) == Broker(s.now, s.objs, s.mem - expired, s.disk - expired, s.inflight, s.used)
    {
    }

    method ListGrants(project: Option<string>) returns (active: set<string>)
      requires Valid()
      modifies this`grants, this`files
      ensures Valid() && State() == List(old(State()), project)
      ensures active == Listed(old(State()), project)
      ensures forall id :: id in active <==>
                && id in old(grants) && Unexpired(old(grants)[id].expiresAt, now) && !old(grants)[id].revoked
                && (project == None || project == Some("") || project == Some(old(grants)[id].project))
      ensures forall id :: id in old(grants) && id !in grants <==>
                && id in old(grants) && (!Unexpired(old(grants)[id].expiresAt, now) || old(grants)[id].revoked)
                && (project == None || project == Some("") || project == Some(old(grants)[id].project))
      ensures grants.Keys <= old(grants).Keys && files == old(files) - (old(grants).Keys - grants.Keys)
    {
      var expired;
      active, expired := SortAll(project);
      ListFields(State(), project, expired);
      KeysWithout(grants, expired);
      DeleteAll(expired);
      assert old(files) - (old(grants).Keys - grants.Keys) == files;
    }

    method CleanupExpired()
      requires Valid()
      modifies this`grants, this`files
      ensures Valid() && State() == Cleanup(old(State()))
      ensures forall id :: id in grants <==> id in old(grants) && Unexpired(old(grants)[id].expiresAt, now)
      ensures files == old(files) - (old(grants).Keys - grants.Keys)
    {
      ghost var next := Cleanup(State());
      var expired := set id | id in grants && IsExpired(grants[id].Fields(), now);
      assert expired == Overdue(State());
      DeleteAll(expired);
      assert State() == next;
    }
  }
}
