/**
 The store of scoped API tokens, `TokenStore` in `proxy/tokens.py`, as a step system: a dict
 in insertion order, one file a token, and restarts that read the files back in any order.
 A bearer is represented by its SHA-256 digest.
 */
module TokenModel {
  import opened Scopes
  import opened Options

  datatype Deadline = At(time: int) | Unparsable

  datatype Token = Token(id: string, scope: string, created: int, expiresAt: Deadline, revoked: bool, hash: string)

  datatype Store = Store(
    now: int,
    tokens: seq<Token>,             // the values of _tokens, in order
    disk: map<string, Token>,       // the token files
    used: set<string>,              // every id drawn so far
    hashes: set<string>)            // the digest of every bearer issued so far

  const MAX_TTL: int := 86400

  predicate IsExpired(t: Token, now: int) {
    match t.expiresAt
    case At(time) => now >= time
    case Unparsable => true
  }

  predicate Live(t: Token, now: int) {
    !IsExpired(t, now) && !t.revoked
  }

  // ---------------------------------------------------------------------------
  // The operations

  function Remaining(tokens: seq<Token>, gone: set<string>): seq<Token> {
    if tokens == [] then []
    else (if tokens[0].id in gone then [] else [tokens[0]]) + Remaining(tokens[1..], gone)
  }

  /** delete for each id. */
  function Drop(s: Store, gone: set<string>): Store {
    s.(tokens := Remaining(s.tokens, gone), disk := s.disk - gone)
  }

  function Accepts(ttl: int, scope: string): bool {
    0 < ttl <= MAX_TTL && Normalize(scope) != ""
  }

  function Create(s: Store, id: string, scope: string, ttl: int, hash: string): Store {
    if !Accepts(ttl, scope) then s
    else
      var t := Token(id, Normalize(scope), s.now, At(s.now + ttl), false, hash);
      s.(tokens := s.tokens + [t], disk := s.disk[id := t], used := s.used + {id}, hashes := s.hashes + {hash})
  }

  /** The expired tokens that authenticate meets before it finds the bearer's token. */
  function Met(tokens: seq<Token>, hash: string, now: int): set<string> {
    if tokens == [] then {}
    else if IsExpired(tokens[0], now) then {tokens[0].id} + Met(tokens[1..], hash, now)
    else if !tokens[0].revoked && tokens[0].hash == hash then {}
    else Met(tokens[1..], hash, now)
  }

  function Match(tokens: seq<Token>, hash: string, now: int): Option<Token> {
    if tokens == [] then None
    else if Live(tokens[0], now) && tokens[0].hash == hash then Some(tokens[0])
    else Match(tokens[1..], hash, now)
  }

  /** What authenticate returns, and the state it leaves. */
  function Found(s: Store, hash: string, path: string): Option<Token> {
    match Match(s.tokens, hash, s.now)
    case None => None
    case Some(t) => if ScopeAllows(t.scope, path) then Some(t) else None
  }

  function Authenticate(s: Store, hash: string): Store {
    Drop(s, Met(s.tokens, hash, s.now))
  }

  function ExpiredIds(tokens: seq<Token>, now: int): set<string> {
    set t | t in tokens && IsExpired(t, now) :: t.id
  }

  /** list and cleanup_expired */
  function Clean(s: Store): Store {
    Drop(s, ExpiredIds(s.tokens, s.now))
  }

  predicate Has(tokens: seq<Token>, id: string) {
    exists t :: t in tokens && t.id == id
  }

  function Marked(tokens: seq<Token>, id: string): seq<Token> {
    if tokens == [] then []
    else [if tokens[0].id == id then tokens[0].(revoked := true) else tokens[0]] + Marked(tokens[1..], id)
  }

  function Find(tokens: seq<Token>, id: string): (t: Token)
    requires Has(tokens, id)
    ensures t in tokens && t.id == id
  {
    if tokens[0].id == id then tokens[0] else Find(tokens[1..], id)
  }

  function Revoke(s: Store, id: string): Store {
    if !Has(s.tokens, id) then s
    else s.(tokens := Marked(s.tokens, id), disk := s.disk[id := Find(s.tokens, id).(revoked := true)])
  }

  /** recover reads the files in the order that the directory lists them. */
  function Read(disk: map<string, Token>, order: seq<string>, now: int): seq<Token> {
    if order == [] then []
    else
      (if order[0] in disk && !IsExpired(disk[order[0]], now) then [disk[order[0]]] else [])
      + Read(disk, order[1..], now)
  }

  /** The files in `torn` cannot be read, and are unlinked like the expired ones. */
  function Restart(s: Store, order: seq<string>, torn: set<string>): Store {
    var disk := s.disk - torn;
    s.(tokens := Read(disk, order, s.now), disk := map id | id in disk && !IsExpired(disk[id], s.now) :: disk[id])
  }

  datatype Event =
    | Creates(id: string, scope: string, ttl: int, hash: string)
    | Authenticates(hash: string)
    | Cleans
    | Revokes(id: string)
    | Ticks(delay: nat)
    | Restarts(order: seq<string>, torn: set<string>)

  /** Every file once. */
  ghost predicate Lists(order: seq<string>, disk: map<string, Token>) {
    && (forall id :: id in disk <==> id in order)
    && (forall i, j :: 0 <= i < j < |order| ==> order[i] != order[j])
  }

  ghost predicate Enabled(s: Store, e: Event) {
    match e
    case Creates(id, _, _, hash) => id !in s.used && hash !in s.hashes
    case Restarts(order, _) => Lists(order, s.disk)
    case _ => true
  }

  function Apply(s: Store, e: Event): Store {
    match e
    case Creates(id, scope, ttl, hash) => Create(s, id, scope, ttl, hash)
    case Authenticates(hash) => Authenticate(s, hash)
    case Cleans => Clean(s)
    case Revokes(id) => Revoke(s, id)
    case Ticks(delay) => s.(now := s.now + delay)
    case Restarts(order, torn) => Restart(s, order, torn)
  }

  const STARTED: Store := Store(0, [], map[], {}, {})

  // ---------------------------------------------------------------------------
  // What every step keeps

  /** The deadline is a time after now. */
  predicate Timely(t: Token, now: int) {
    t.expiresAt.At? && now < t.expiresAt.time
  }

  /** Ids and digests name one token each. */
  ghost predicate Distinct(tokens: seq<Token>) {
    forall i, j :: 0 <= i < j < |tokens| ==> tokens[i].id != tokens[j].id && tokens[i].hash != tokens[j].hash
  }

  /** The dict and the files hold the same tokens. */
  ghost predicate Agree(tokens: seq<Token>, disk: map<string, Token>) {
    && (forall t :: t in tokens ==> t.id in disk && disk[t.id] == t)
    && (forall id :: id in disk ==> disk[id] in tokens && disk[id].id == id)
  }

  ghost predicate Known(s: Store) {
    forall t :: t in s.tokens ==> t.id in s.used && t.hash in s.hashes
  }

  ghost predicate Inv(s: Store) {
    Distinct(s.tokens) && Agree(s.tokens, s.disk) && Known(s)
  }

  lemma {:induction false} RemainingMembers(tokens: seq<Token>, gone: set<string>)
    ensures forall t :: t in Remaining(tokens, gone) <==> t in tokens && t.id !in gone
  {
    if tokens != [] {
      assert tokens == [tokens[0]] + tokens[1..];
      RemainingMembers(tokens[1..], gone);
    }
  }

  lemma DistinctCons(t: Token, rest: seq<Token>)
    requires Distinct(rest) && forall u :: u in rest ==> u.id != t.id && u.hash != t.hash
    ensures Distinct([t] + rest)
  {
    var all := [t] + rest;
    forall i, j | 0 <= i < j < |all| ensures all[i].id != all[j].id && all[i].hash != all[j].hash {
      assert all[j] == rest[j - 1] && rest[j - 1] in rest;
      if i > 0 {
        assert all[i] == rest[i - 1];
      }
    }
  }

  lemma DistinctTail(tokens: seq<Token>)
    requires Distinct(tokens) && tokens != []
    ensures Distinct(tokens[1..])
    ensures forall u :: u in tokens[1..] ==> u in tokens && u.id != tokens[0].id && u.hash != tokens[0].hash
  {
    var rest := tokens[1..];
    forall u | u in rest ensures u in tokens && u.id != tokens[0].id && u.hash != tokens[0].hash {
      var j :| 0 <= j < |rest| && rest[j] == u;
      assert tokens[j + 1] == u;
    }
    forall i, j | 0 <= i < j < |rest| ensures rest[i].id != rest[j].id && rest[i].hash != rest[j].hash {
      assert rest[i] == tokens[i + 1] && rest[j] == tokens[j + 1];
    }
  }

  lemma {:induction false} RemainingDistinct(tokens: seq<Token>, gone: set<string>)
    requires Distinct(tokens)
    ensures Distinct(Remaining(tokens, gone))
  {
    if tokens != [] {
      DistinctTail(tokens);
      RemainingDistinct(tokens[1..], gone);
      RemainingMembers(tokens[1..], gone);
      var rest := Remaining(tokens[1..], gone);
      if tokens[0].id in gone {
        assert [] + rest == rest;
      } else {
        DistinctCons(tokens[0], rest);
      }
    }
  }

  lemma DropInv(s: Store, gone: set<string>)
    requires Inv(s)
    ensures Inv(Drop(s, gone))
  {
    RemainingMembers(s.tokens, gone);
    RemainingDistinct(s.tokens, gone);
  }

  lemma CreateInv(s: Store, id: string, scope: string, ttl: int, hash: string)
    requires Inv(s) && id !in s.used && hash !in s.hashes
    ensures Inv(Create(s, id, scope, ttl, hash))
  {
    if Accepts(ttl, scope) {
      var t := Token(id, Normalize(scope), s.now, At(s.now + ttl), false, hash);
      AppendInv(s.tokens, s.disk, t);
    }
  }

  lemma AppendInv(tokens: seq<Token>, disk: map<string, Token>, t: Token)
    requires Distinct(tokens) && Agree(tokens, disk)
    requires forall u :: u in tokens ==> u.id != t.id && u.hash != t.hash
    ensures Distinct(tokens + [t]) && Agree(tokens + [t], disk[t.id := t])
  {
    var all := tokens + [t];
    forall i, j | 0 <= i < j < |all| ensures all[i].id != all[j].id && all[i].hash != all[j].hash {
      assert all[i] == tokens[i] && tokens[i] in tokens;
    }
    assert t in all;
  }

  lemma {:induction false} MarkedAt(tokens: seq<Token>, id: string)
    ensures |Marked(tokens, id)| == |tokens|
    ensures forall i :: 0 <= i < |tokens| ==>
              Marked(tokens, id)[i] == if tokens[i].id == id then tokens[i].(revoked := true) else tokens[i]
  {
    if tokens != [] {
      MarkedAt(tokens[1..], id);
    }
  }

  lemma MarkedMembers(tokens: seq<Token>, id: string, t: Token)
    ensures t in Marked(tokens, id)
            <==> (t.id != id && t in tokens)
                 || (t.id == id && t.revoked && exists u :: u in tokens && u.id == id && u.(revoked := true) == t)
  {
    MarkedAt(tokens, id);
    var m := Marked(tokens, id);
    if t in m {
      var i :| 0 <= i < |m| && m[i] == t;
      assert tokens[i] in tokens;
    }
    if t.id != id && t in tokens {
      var i :| 0 <= i < |tokens| && tokens[i] == t;
      assert m[i] == t;
    }
    if t.id == id && t.revoked && exists u :: u in tokens && u.id == id && u.(revoked := true) == t {
      var u :| u in tokens && u.id == id && u.(revoked := true) == t;
      var i :| 0 <= i < |tokens| && tokens[i] == u;
      assert m[i] == t;
    }
  }

  lemma RevokeInv(s: Store, id: string)
    requires Inv(s)
    ensures Inv(Revoke(s, id))
  {
    if Has(s.tokens, id) {
      MarkedAt(s.tokens, id);
      assert Distinct(Revoke(s, id).tokens);
      RevokeAgrees(s, id);
    }
  }

  lemma RevokeAgrees(s: Store, id: string)
    requires Inv(s) && Has(s.tokens, id)
    ensures Agree(Revoke(s, id).tokens, Revoke(s, id).disk) && Known(Revoke(s, id))
  {
    var t, u := Revoke(s, id), Find(s.tokens, id);
    forall v ensures v in t.tokens <==> (v.id != id && v in s.tokens) || v == u.(revoked := true) {
      MarkedMembers(s.tokens, id, v);
    }
  }

  lemma {:induction false} ReadMembers(disk: map<string, Token>, order: seq<string>, now: int)
    requires forall id :: id in disk ==> disk[id].id == id
    ensures forall t :: t in Read(disk, order, now) <==>
              t.id in order && t.id in disk && disk[t.id] == t && !IsExpired(t, now)
  {
    if order != [] {
      assert order == [order[0]] + order[1..];
      ReadMembers(disk, order[1..], now);
    }
  }

  lemma {:induction false} ReadDistinct(disk: map<string, Token>, order: seq<string>, now: int)
    requires forall id :: id in disk ==> disk[id].id == id
    requires forall id, jd :: id in disk && jd in disk && id != jd ==> disk[id].hash != disk[jd].hash
    requires forall i, j :: 0 <= i < j < |order| ==> order[i] != order[j]
    ensures Distinct(Read(disk, order, now))
  {
    if order != [] {
      var rest := Read(disk, order[1..], now);
      ReadDistinct(disk, order[1..], now);
      ReadMembers(disk, order[1..], now);
      if order[0] in disk && !IsExpired(disk[order[0]], now) {
        assert order[0] !in order[1..];
        DistinctCons(disk[order[0]], rest);
      } else {
        assert [] + rest == rest;
      }
    }
  }

  lemma RestartInv(s: Store, order: seq<string>, torn: set<string>)
    requires Inv(s) && Lists(order, s.disk)
    ensures Inv(Restart(s, order, torn))
  {
    var disk := s.disk - torn;
    ReadMembers(disk, order, s.now);
    forall id, jd | id in disk && jd in disk && id != jd ensures disk[id].hash != disk[jd].hash {
      HashesDiffer(s.tokens, s.disk[id], s.disk[jd]);
    }
    ReadDistinct(disk, order, s.now);
  }

  lemma HashesDiffer(tokens: seq<Token>, t: Token, u: Token)
    requires Distinct(tokens) && t in tokens && u in tokens && t.id != u.id
    ensures t.hash != u.hash
  {
    var i :| 0 <= i < |tokens| && tokens[i] == t;
    var j :| 0 <= j < |tokens| && tokens[j] == u;
    assert i < j || j < i;
  }

  lemma StepInv(s: Store, e: Event)
    requires Inv(s) && Enabled(s, e)
    ensures Inv(Apply(s, e))
  {
    match e
    case Creates(id, scope, ttl, hash) => CreateInv(s, id, scope, ttl, hash);
    case Authenticates(hash) => DropInv(s, Met(s.tokens, hash, s.now));
    case Cleans => DropInv(s, ExpiredIds(s.tokens, s.now));
    case Revokes(id) => RevokeInv(s, id);
    case Ticks(delay) =>
    case Restarts(order, torn) => RestartInv(s, order, torn);
  }
}
