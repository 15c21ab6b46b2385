/**
 What holds over whole runs of the token store: which bearers authenticate, that revoked and
 expired tokens never do again, and that every other token does until it expires.
 */
module TokenRuns {
  import opened Scopes
  import opened TokenModel
  import opened Options

  ghost predicate Runs(s: Store, es: seq<Event>, t: Store)
    decreases |es|
  {
    if es == [] then s == t
    else Enabled(s, es[0]) && Runs(Apply(s, es[0]), es[1..], t)
  }

  lemma {:induction false} RunInv(s: Store, es: seq<Event>, t: Store)
    requires Inv(s) && Runs(s, es, t)
    ensures Inv(t) && s.now <= t.now
    decreases |es|
  {
    if es != [] {
      StepInv(s, es[0]);
      RunInv(Apply(s, es[0]), es[1..], t);
    }
  }

  /** After every operation of every run the dict and the files hold the same tokens. */
  lemma FilesAgree(es: seq<Event>, t: Store)
    requires Runs(STARTED, es, t)
    ensures forall id :: id in t.disk <==> Has(t.tokens, id)
    ensures forall id :: id in t.disk ==> t.disk[id] == Find(t.tokens, id)
  {
    RunInv(STARTED, es, t);
    forall id | Has(t.tokens, id) ensures id in t.disk && t.disk[id] == Find(t.tokens, id) {
      var u := Find(t.tokens, id);
      assert u in t.tokens;
    }
  }

  lemma {:induction false} MatchExactly(tokens: seq<Token>, hash: string, now: int, t: Token)
    requires Distinct(tokens)
    ensures Match(tokens, hash, now) == Some(t) <==> t in tokens && Live(t, now) && t.hash == hash
  {
    if tokens != [] {
      DistinctTail(tokens);
      MatchExactly(tokens[1..], hash, now, t);
      assert tokens == [tokens[0]] + tokens[1..];
    }
  }

  /**
   A bearer authenticates for a path exactly when some token has its digest, is neither expired
   nor revoked, and has a scope that allows the path.
   */
  lemma AuthenticatesExactly(s: Store, hash: string, path: string, t: Token)
    requires Inv(s)
    ensures Found(s, hash, path) == Some(t)
            <==> t in s.tokens && t.hash == hash && Live(t, s.now) && ScopeAllows(t.scope, path)
  {
    MatchExactly(s.tokens, hash, s.now, t);
    if Match(s.tokens, hash, s.now).Some? {
      MatchExactly(s.tokens, hash, s.now, Match(s.tokens, hash, s.now).value);
    }
  }

  // ---------------------------------------------------------------------------
  // Tokens that have ended

  /** The id was drawn, and its token, if it is still there, is revoked or expired. */
  ghost predicate Ended(s: Store, id: string) {
    id in s.used && forall t :: t in s.tokens && t.id == id ==> !Live(t, s.now)
  }

  lemma StepEnded(s: Store, e: Event, id: string)
    requires Inv(s) && Enabled(s, e) && Ended(s, id)
    ensures Ended(Apply(s, e), id)
  {
    match e
    case Creates(_, _, _, _) =>
    case Authenticates(hash) => RemainingMembers(s.tokens, Met(s.tokens, hash, s.now));
    case Cleans => RemainingMembers(s.tokens, ExpiredIds(s.tokens, s.now));
    case Revokes(which) => RevokeEnded(s, which, id);
    case Ticks(delay) => TickEnded(s, delay, id);
    case Restarts(order, torn) => ReadMembers(s.disk - torn, order, s.now);
  }

  lemma RevokeEnded(s: Store, which: string, id: string)
    requires Inv(s) && (Ended(s, id) || (which == id && Has(s.tokens, id)))
    ensures Ended(Revoke(s, which), id)
  {
    if Has(s.tokens, which) {
      forall t | t in Marked(s.tokens, which) && t.id == id ensures !Live(t, s.now) {
        MarkedMembers(s.tokens, which, t);
      }
    }
  }

  lemma TickEnded(s: Store, delay: nat, id: string)
    requires Ended(s, id)
    ensures Ended(s.(now := s.now + delay), id)
  {
    forall t | t in s.tokens && t.id == id ensures !Live(t, s.now + delay) {
      assert !Live(t, s.now);
    }
  }

  lemma {:induction false} RunEnded(s: Store, es: seq<Event>, t: Store, id: string)
    requires Inv(s) && Runs(s, es, t) && Ended(s, id)
    ensures Inv(t) && Ended(t, id)
    decreases |es|
  {
    if es != [] {
      StepInv(s, es[0]);
      StepEnded(s, es[0], id);
      RunEnded(Apply(s, es[0]), es[1..], t, id);
    }
  }

  /** Once a token is revoked it authenticates nothing again, in any continuation and after any restart. */
  lemma RevokedForever(s: Store, id: string, es: seq<Event>, t: Store, hash: string, path: string)
    requires Inv(s) && Has(s.tokens, id) && Runs(Revoke(s, id), es, t)
    ensures Found(t, hash, path).None? || Found(t, hash, path).value.id != id
  {
    StepInv(s, Revokes(id));
    RevokeEnded(s, id, id);
    RunEnded(Revoke(s, id), es, t, id);
    EndedNotFound(t, id, hash, path);
  }

  /** Once a token has expired it authenticates nothing again. */
  lemma ExpiredForever(s: Store, spent: Token, es: seq<Event>, t: Store, hash: string, path: string)
    requires Inv(s) && spent in s.tokens && IsExpired(spent, s.now) && Runs(s, es, t)
    ensures Found(t, hash, path).None? || Found(t, hash, path).value.id != spent.id
  {
    assert Ended(s, spent.id) by {
      forall u | u in s.tokens && u.id == spent.id ensures !Live(u, s.now) {
        assert s.disk[u.id] == u && s.disk[spent.id] == spent;
      }
    }
    RunEnded(s, es, t, spent.id);
    EndedNotFound(t, spent.id, hash, path);
  }

  lemma EndedNotFound(t: Store, id: string, hash: string, path: string)
    requires Inv(t) && Ended(t, id)
    ensures Found(t, hash, path).None? || Found(t, hash, path).value.id != id
  {
    if Found(t, hash, path).Some? {
      AuthenticatesExactly(t, hash, path, Found(t, hash, path).value);
    }
  }

  // ---------------------------------------------------------------------------
  // Tokens that have not

  lemma {:induction false} MetExpired(tokens: seq<Token>, hash: string, now: int)
    ensures forall id :: id in Met(tokens, hash, now) ==> exists t :: t in tokens && t.id == id && IsExpired(t, now)
  {
    if tokens != [] {
      MetExpired(tokens[1..], hash, now);
      assert tokens[0] in tokens && forall t :: t in tokens[1..] ==> t in tokens;
    }
  }

  lemma DropKeeps(s: Store, gone: set<string>, t: Token)
    requires Inv(s) && t in s.tokens && Live(t, s.now)
    requires forall id :: id in gone ==> exists u :: u in s.tokens && u.id == id && IsExpired(u, s.now)
    ensures t in Drop(s, gone).tokens
  {
    RemainingMembers(s.tokens, gone);
    forall u | u in s.tokens && IsExpired(u, s.now) ensures u.id != t.id {
      assert s.disk[u.id] == u && s.disk[t.id] == t;
    }
  }

  lemma StepKeeps(s: Store, e: Event, t: Token)
    requires Inv(s) && Enabled(s, e) && t in s.tokens && Live(t, s.now)
    requires e != Revokes(t.id) && (e.Restarts? ==> t.id !in e.torn)
    ensures t in Apply(s, e).tokens
  {
    match e
    case Creates(_, _, _, _) =>
    case Authenticates(hash) =>
      MetExpired(s.tokens, hash, s.now);
      DropKeeps(s, Met(s.tokens, hash, s.now), t);
    case Cleans => DropKeeps(s, ExpiredIds(s.tokens, s.now), t);
    case Revokes(which) =>
      if Has(s.tokens, which) { MarkedMembers(s.tokens, which, t); }
    case Ticks(_) =>
    case Restarts(order, torn) => ReadMembers(s.disk - torn, order, s.now);
  }

  /** A token that is not revoked, and whose file stays readable, authenticates until it expires. */
  lemma {:induction false} AuthenticatesUntilExpiry(s: Store, es: seq<Event>, u: Store, t: Token, path: string)
    requires Inv(s) && Runs(s, es, u) && t in s.tokens && !t.revoked
    requires forall e :: e in es ==> e != Revokes(t.id) && (e.Restarts? ==> t.id !in e.torn)
    requires !IsExpired(t, u.now) && ScopeAllows(t.scope, path)
    ensures Found(u, t.hash, path) == Some(t)
    decreases |es|
  {
    RunInv(s, es, u);
    if es == [] {
      AuthenticatesExactly(s, t.hash, path, t);
    } else {
      assert es[0] in es && forall e :: e in es[1..] ==> e in es;
      StepInv(s, es[0]);
      StepKeeps(s, es[0], t);
      AuthenticatesUntilExpiry(Apply(s, es[0]), es[1..], u, t, path);
    }
  }

  // ---------------------------------------------------------------------------
  // From creation to the deadline

  /** The digest belongs to this token, as it was issued, and to no other. */
  ghost predicate Sole(s: Store, t: Token) {
    && t.id in s.used && t.hash in s.hashes
    && (forall v :: v in s.tokens && v.hash == t.hash ==> v == t)
  }

  lemma StepSole(s: Store, e: Event, t: Token)
    requires Inv(s) && Enabled(s, e) && Sole(s, t) && e != Revokes(t.id)
    ensures Sole(Apply(s, e), t)
  {
    match e
    case Creates(_, _, _, _) =>
    case Authenticates(hash) => RemainingMembers(s.tokens, Met(s.tokens, hash, s.now));
    case Cleans => RemainingMembers(s.tokens, ExpiredIds(s.tokens, s.now));
    case Revokes(which) => RevokeSole(s, which, t);
    case Ticks(_) =>
    case Restarts(order, torn) => ReadMembers(s.disk - torn, order, s.now);
  }

  lemma RevokeSole(s: Store, which: string, t: Token)
    requires Sole(s, t) && which != t.id
    ensures Sole(Revoke(s, which), t)
  {
    forall v | v in Revoke(s, which).tokens && v.hash == t.hash ensures v == t {
      if Has(s.tokens, which) { MarkedMembers(s.tokens, which, v); }
    }
  }

  lemma {:induction false} RunSole(s: Store, es: seq<Event>, u: Store, t: Token)
    requires Inv(s) && Runs(s, es, u) && Sole(s, t) && Revokes(t.id) !in es
    ensures Sole(u, t)
    decreases |es|
  {
    if es == [] {
    } else {
      assert es[0] in es && forall e :: e in es[1..] ==> e in es;
      StepInv(s, es[0]);
      StepSole(s, es[0], t);
      RunSole(Apply(s, es[0]), es[1..], u, t);
    }
  }

  /** The token that create makes is in the dict and in its file. */
  lemma CreatedStored(s: Store, id: string, scope: string, ttl: int, hash: string)
    requires Inv(s) && id !in s.used && hash !in s.hashes && 0 < ttl <= 86400 && Normalize(scope) != ""
    ensures var u, t := Apply(s, Creates(id, scope, ttl, hash)),
                        Token(id, Normalize(scope), s.now, At(s.now + ttl), false, hash);
            Inv(u) && Sole(u, t) && u.now == s.now && u.tokens == s.tokens + [t] && u.disk == s.disk[id := t]
  {
    CreateInv(s, id, scope, ttl, hash);
  }

  /**
   The bearer of a token issued at time s.now authenticates a path, as that token, exactly
   until the time to live is over and if the scope allows the path, whatever else happens but
   its revocation or the loss of its file, and through restarts.
   */
  lemma IssuedUntilDeadline(s: Store, id: string, scope: string, ttl: int, hash: string,
                            es: seq<Event>, u: Store, path: string)
    requires Inv(s) && id !in s.used && hash !in s.hashes && 0 < ttl <= 86400 && Normalize(scope) != ""
    requires Runs(Apply(s, Creates(id, scope, ttl, hash)), es, u)
    requires forall e :: e in es ==> e != Revokes(id) && (e.Restarts? ==> id !in e.torn)
    ensures Found(u, hash, path)
            == if u.now < s.now + ttl && ScopeAllows(Normalize(scope), path)
               then Some(Token(id, Normalize(scope), s.now, At(s.now + ttl), false, hash)) else None
  {
    var r, t := Apply(s, Creates(id, scope, ttl, hash)),
                Token(id, Normalize(scope), s.now, At(s.now + ttl), false, hash);
    CreatedStored(s, id, scope, ttl, hash);
    if u.now < s.now + ttl && ScopeAllows(t.scope, path) {
      AuthenticatesUntilExpiry(r, es, u, t, path);
    } else if Found(u, hash, path).Some? {
      RunInv(r, es, u);
      RunSole(r, es, u, t);
      AuthenticatesExactly(u, hash, path, Found(u, hash, path).value);
    }
  }

  // ---------------------------------------------------------------------------
  // What deletes a token

  /** authenticate deletes the expired tokens in front of the bearer's own. */
  lemma {:induction false} MetExactly(tokens: seq<Token>, hash: string, now: int, i: nat)
    requires Distinct(tokens) && i < |tokens|
    ensures tokens[i].id in Met(tokens, hash, now) <==>
              !Timely(tokens[i], now)
              && forall t :: t in tokens[..i] ==> t.hash != hash || !Timely(t, now) || t.revoked
  {
    DistinctTail(tokens);
    MetExpired(tokens[1..], hash, now);
    if i == 0 {
      assert tokens[..0] == [];
    } else {
      MetExactly(tokens[1..], hash, now, i - 1);
      assert tokens[..i] == [tokens[0]] + tokens[1..][..i - 1] && tokens[i] in tokens[1..];
    }
  }

  /** A token of the dict is dropped exactly if its id is. */
  lemma DroppedExactly(s: Store, gone: set<string>)
    requires Inv(s)
    ensures forall t :: t in Drop(s, gone).tokens <==> t in s.tokens && t.id !in gone
    ensures forall id :: id in Drop(s, gone).disk <==> id in s.disk && id !in gone
  {
    RemainingMembers(s.tokens, gone);
  }

  /** After authenticate the dict holds the tokens that have not expired or stand behind the bearer's own. */
  lemma AuthenticateDeletes(s: Store, hash: string, i: nat)
    requires Inv(s) && i < |s.tokens|
    ensures s.tokens[i] in Authenticate(s, hash).tokens <==>
              Timely(s.tokens[i], s.now)
              || exists t :: t in s.tokens[..i] && t.hash == hash && Timely(t, s.now) && !t.revoked
  {
    DroppedExactly(s, Met(s.tokens, hash, s.now));
    MetExactly(s.tokens, hash, s.now, i);
  }

  /** After a clean-up dict and files hold exactly the tokens that have not expired. */
  lemma CleanDeletes(s: Store)
    requires Inv(s)
    ensures forall t :: t in Clean(s).tokens <==> t in s.tokens && Timely(t, s.now)
    ensures forall id :: id in Clean(s).disk <==> id in s.disk && Timely(s.disk[id], s.now)
    ensures forall id :: id in Clean(s).disk ==> Clean(s).disk[id] == s.disk[id]
  {
    var gone := ExpiredIds(s.tokens, s.now);
    DroppedExactly(s, gone);
    forall t | t in s.tokens ensures t.id in gone <==> !Timely(t, s.now) {
      assert s.disk[t.id] == t;
      forall u | u in s.tokens && u.id == t.id ensures u == t {
        assert s.disk[u.id] == u;
      }
    }
  }

  /** A restart changes no answer of authenticate, in whatever order the files are listed. */
  lemma RestartInvisible(s: Store, order: seq<string>, hash: string, path: string)
    requires Inv(s) && Lists(order, s.disk)
    ensures Found(Restart(s, order, {}), hash, path) == Found(s, hash, path)
  {
    var r := Restart(s, order, {});
    RestartInv(s, order, {});
    assert s.disk - {} == s.disk;
    ReadMembers(s.disk, order, s.now);
    if Found(s, hash, path).Some? {
      var t := Found(s, hash, path).value;
      AuthenticatesExactly(s, hash, path, t);
      AuthenticatesExactly(r, hash, path, t);
    }
    if Found(r, hash, path).Some? {
      var t := Found(r, hash, path).value;
      AuthenticatesExactly(r, hash, path, t);
      AuthenticatesExactly(s, hash, path, t);
    }
  }

  // ---------------------------------------------------------------------------
  // Lifetimes

  ghost predicate Bounded(s: Store) {
    forall t :: t in s.tokens ==> t.expiresAt.At? && t.expiresAt.time <= s.now + MAX_TTL
  }

  lemma StepBounded(s: Store, e: Event)
    requires Inv(s) && Enabled(s, e) && Bounded(s)
    ensures Bounded(Apply(s, e))
  {
    match e
    case Creates(_, _, _, _) =>
    case Authenticates(hash) => RemainingMembers(s.tokens, Met(s.tokens, hash, s.now));
    case Cleans => RemainingMembers(s.tokens, ExpiredIds(s.tokens, s.now));
    case Revokes(which) =>
      forall t | t in Marked(s.tokens, which) ensures t.expiresAt.At? && t.expiresAt.time <= s.now + MAX_TTL {
        MarkedMembers(s.tokens, which, t);
      }
    case Ticks(_) =>
    case Restarts(order, torn) => ReadMembers(s.disk - torn, order, s.now);
  }

  lemma {:induction false} RunBounded(s: Store, es: seq<Event>, t: Store)
    requires Inv(s) && Bounded(s) && Runs(s, es, t)
    ensures Inv(t) && Bounded(t)
    decreases |es|
  {
    if es != [] {
      StepInv(s, es[0]);
      StepBounded(s, es[0]);
      RunBounded(Apply(s, es[0]), es[1..], t);
    }
  }

  /** No token outlives a day: every bearer that authenticates now fails from 86400 seconds on. */
  lemma GoneAfterADay(es: seq<Event>, s: Store, t: Token, fs: seq<Event>, u: Store, hash: string, path: string)
    requires Runs(STARTED, es, s) && t in s.tokens && Runs(s, fs, u) && u.now >= s.now + 86400
    ensures Found(u, hash, path).None? || Found(u, hash, path).value.id != t.id
  {
    RunBounded(STARTED, es, s);
    RunInv(s, fs, u);
    if Found(u, hash, path).Some? && Found(u, hash, path).value.id == t.id {
      AuthenticatesExactly(u, hash, path, Found(u, hash, path).value);
      SameDeadline(s, fs, u, t, Found(u, hash, path).value);
    }
  }

  /** A token keeps its deadline for as long as its id is in the dict. */
  lemma {:induction false} SameDeadline(s: Store, es: seq<Event>, u: Store, t: Token, v: Token)
    requires Inv(s) && Runs(s, es, u) && t in s.tokens && v in u.tokens && v.id == t.id
    ensures v.expiresAt == t.expiresAt
    decreases |es|
  {
    if es == [] {
      assert s.disk[t.id] == t && s.disk[v.id] == v;
    } else {
      var r := Apply(s, es[0]);
      StepInv(s, es[0]);
      if Has(r.tokens, t.id) {
        StepDeadline(s, es[0], t, Find(r.tokens, t.id));
        SameDeadline(r, es[1..], u, Find(r.tokens, t.id), v);
      } else {
        assert Ended(r, t.id);
        StaysAway(r, es[1..], u, t.id);
      }
    }
  }

  lemma StepDeadline(s: Store, e: Event, t: Token, v: Token)
    requires Inv(s) && Enabled(s, e) && t in s.tokens && v in Apply(s, e).tokens && v.id == t.id
    ensures v.expiresAt == t.expiresAt
  {
    assert s.disk[t.id] == t;
    match e
    case Creates(_, _, _, _) =>
    case Authenticates(hash) => RemainingMembers(s.tokens, Met(s.tokens, hash, s.now));
    case Cleans => RemainingMembers(s.tokens, ExpiredIds(s.tokens, s.now));
    case Revokes(which) => if Has(s.tokens, which) { MarkedMembers(s.tokens, which, v); }
    case Ticks(_) =>
    case Restarts(order, torn) => ReadMembers(s.disk - torn, order, s.now);
  }

  lemma {:induction false} StaysAway(s: Store, es: seq<Event>, u: Store, id: string)
    requires Inv(s) && Runs(s, es, u) && id in s.used && !Has(s.tokens, id)
    ensures !Has(u.tokens, id)
    decreases |es|
  {
    if es != [] {
      StepInv(s, es[0]);
      StepAway(s, es[0], id);
      StaysAway(Apply(s, es[0]), es[1..], u, id);
    }
  }

  lemma StepAway(s: Store, e: Event, id: string)
    requires Inv(s) && Enabled(s, e) && id in s.used && !Has(s.tokens, id)
    ensures id in Apply(s, e).used && !Has(Apply(s, e).tokens, id)
  {
    match e
    case Creates(_, _, _, _) =>
    case Authenticates(hash) => RemainingMembers(s.tokens, Met(s.tokens, hash, s.now));
    case Cleans => RemainingMembers(s.tokens, ExpiredIds(s.tokens, s.now));
    case Revokes(which) =>
      forall t | t in Marked(s.tokens, which) ensures t.id != id { MarkedMembers(s.tokens, which, t); }
    case Ticks(_) =>
    case Restarts(order, torn) => ReadMembers(s.disk - torn, order, s.now);
  }
}
