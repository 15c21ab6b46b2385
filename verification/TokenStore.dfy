/**
 The token store object: a dict in insertion order and one file a token, updated in place.
 Each method names the step of the token model that it is.
 */
module TokenStore {
  import opened Scopes
  import opened TokenModel
  import opened TokenRuns
  import opened Options

  datatype Created = Issued(token: Token) | BadTtl | BadScope

  lemma {:induction false} RemainingTwice(tokens: seq<Token>, gone: set<string>, id: string)
    ensures Remaining(Remaining(tokens, gone), {id}) == Remaining(tokens, gone + {id})
  {
    if tokens != [] {
      RemainingTwice(tokens[1..], gone, id);
      var head, rest := tokens[0], Remaining(tokens[1..], gone);
      if head.id in gone {
        assert Remaining(tokens, gone) == rest;
      } else {
        assert Remaining(tokens, gone) == [head] + rest && ([head] + rest)[1..] == rest;
      }
    }
  }

  lemma {:induction false} NothingDropped(tokens: seq<Token>)
    ensures Remaining(tokens, {}) == tokens
  {
    if tokens != [] {
      NothingDropped(tokens[1..]);
    }
  }

  lemma DropOneMore(s: Store, gone: set<string>, id: string)
    ensures Drop(Drop(s, gone), {id}) == Drop(s, gone + {id})
  {
    RemainingTwice(s.tokens, gone, id);
    assert s.disk - gone - {id} == s.disk - (gone + {id});
  }

  lemma DropNothing(s: Store)
    ensures Drop(s, {}) == s
  {
    NothingDropped(s.tokens);
    assert s.disk - {} == s.disk;
  }

  // ---------------------------------------------------------------------------
  // Recovering

  /** The files when recover has yet to read those in rest. */
  ghost function Unread(disk: map<string, Token>, torn: set<string>, rest: seq<string>, now: int): map<string, Token> {
    map id | id in disk && (id in rest || (id !in torn && !IsExpired(disk[id], now))) :: disk[id]
  }

  lemma NotLater(order: seq<string>, disk: map<string, Token>, i: nat)
    requires Lists(order, disk) && i < |order|
    ensures order[i] in disk && order[i..] == [order[i]] + order[i + 1..] && order[i] !in order[i + 1..]
  {
    assert order[i] in order;
  }

  /** The file is read, and is neither unreadable nor expired. */
  predicate Kept(disk: map<string, Token>, torn: set<string>, id: string, now: int)
    requires id in disk
  {
    id !in torn && !IsExpired(disk[id], now)
  }

  lemma UnreadOne(disk: map<string, Token>, torn: set<string>, id: string, rest: seq<string>, now: int)
    requires id in disk && id !in rest
    ensures var before, after := Unread(disk, torn, [id] + rest, now), Unread(disk, torn, rest, now);
            && id in before && before[id] == disk[id]
            && after == if Kept(disk, torn, id, now) then before else before - {id}
  {
    assert forall i :: i in [id] + rest <==> i == id || i in rest;
  }

  lemma ReadOne(disk: map<string, Token>, torn: set<string>, order: seq<string>, now: int, read: seq<Token>)
    requires order != [] && order[0] in disk
    ensures var more := if Kept(disk, torn, order[0], now) then read + [disk[order[0]]] else read;
            more + Read(disk - torn, order[1..], now) == read + Read(disk - torn, order, now)
  {
  }

  /** What reading file i does to the files left and to the tokens still to come. */
  lemma ReadNext(disk: map<string, Token>, torn: set<string>, order: seq<string>, i: nat, now: int, read: seq<Token>)
    requires Lists(order, disk) && i < |order|
    ensures order[i] in disk && order[i] in Unread(disk, torn, order[i..], now)
    ensures Unread(disk, torn, order[i..], now)[order[i]] == disk[order[i]]
    ensures var before := Unread(disk, torn, order[i..], now);
            Unread(disk, torn, order[i + 1..], now)
            == if Kept(disk, torn, order[i], now) then before else before - {order[i]}
    ensures var more := if Kept(disk, torn, order[i], now) then read + [disk[order[i]]] else read;
            more + Read(disk - torn, order[i + 1..], now) == read + Read(disk - torn, order[i..], now)
  {
    NotLater(order, disk, i);
    assert order[i..][1..] == order[i + 1..];
    UnreadOne(disk, torn, order[i], order[i + 1..], now);
    ReadOne(disk, torn, order[i..], now, read);
  }

  // ---------------------------------------------------------------------------
  // sorted(active, key=created_at)

  /** After every token that is not younger. */
  function Insert(tokens: seq<Token>, t: Token): seq<Token> {
    if tokens == [] || tokens[|tokens| - 1].created <= t.created then tokens + [t]
    else Insert(tokens[..|tokens| - 1], t) + [tokens[|tokens| - 1]]
  }

  function Sorted(tokens: seq<Token>): seq<Token> {
    if tokens == [] then [] else Insert(Sorted(tokens[..|tokens| - 1]), tokens[|tokens| - 1])
  }

  ghost predicate ByCreation(tokens: seq<Token>) {
    forall i, j :: 0 <= i < j < |tokens| ==> tokens[i].created <= tokens[j].created
  }

  /** The tokens created at that time, in order. */
  ghost function CreatedAt(tokens: seq<Token>, time: int): seq<Token> {
    if tokens == [] then []
    else
      var last := tokens[|tokens| - 1];
      CreatedAt(tokens[..|tokens| - 1], time) + (if last.created == time then [last] else [])
  }

  lemma CreatedAtLast(tokens: seq<Token>, t: Token, time: int)
    ensures CreatedAt(tokens + [t], time) == CreatedAt(tokens, time) + (if t.created == time then [t] else [])
  {
    assert (tokens + [t])[..|tokens|] == tokens;
  }

  lemma {:induction false} InsertPermutes(tokens: seq<Token>, t: Token)
    ensures multiset(Insert(tokens, t)) == multiset(tokens) + multiset{t}
  {
    if tokens != [] && tokens[|tokens| - 1].created > t.created {
      var init, last := tokens[..|tokens| - 1], tokens[|tokens| - 1];
      InsertPermutes(init, t);
      assert tokens == init + [last];
    }
  }

  lemma AppendOrders(tokens: seq<Token>, t: Token)
    requires ByCreation(tokens) && forall u :: u in tokens ==> u.created <= t.created
    ensures ByCreation(tokens + [t])
  {
  }

  lemma {:induction false} InsertOrders(tokens: seq<Token>, t: Token)
    requires ByCreation(tokens)
    ensures ByCreation(Insert(tokens, t))
  {
    if tokens != [] && tokens[|tokens| - 1].created > t.created {
      var init, last := tokens[..|tokens| - 1], tokens[|tokens| - 1];
      InsertOrders(init, t);
      InsertBelow(init, t, last.created);
      AppendOrders(Insert(init, t), last);
    }
  }

  lemma {:induction false} InsertBelow(tokens: seq<Token>, t: Token, time: int)
    requires t.created <= time && forall u :: u in tokens ==> u.created <= time
    ensures forall u :: u in Insert(tokens, t) ==> u.created <= time
  {
    if tokens != [] {
      InsertBelow(tokens[..|tokens| - 1], t, time);
    }
  }

  /** Inserting puts the token behind those created at the same time. */
  lemma {:induction false} InsertStable(tokens: seq<Token>, t: Token, time: int)
    requires ByCreation(tokens)
    ensures CreatedAt(Insert(tokens, t), time) == CreatedAt(tokens + [t], time)
  {
    if tokens != [] && tokens[|tokens| - 1].created > t.created {
      var init, last := tokens[..|tokens| - 1], tokens[|tokens| - 1];
      assert tokens == init + [last];
      InsertStable(init, t, time);
      CreatedAtLast(Insert(init, t), last, time);
      OlderBehind(init, last, t, time);
    }
  }

  /** Tokens created at different times may change places. */
  lemma OlderBehind(init: seq<Token>, last: Token, t: Token, time: int)
    requires last.created > t.created
    ensures CreatedAt(init + [t], time) + (if last.created == time then [last] else [])
            == CreatedAt((init + [last]) + [t], time)
  {
    CreatedAtLast(init, last, time);
    CreatedAtLast(init, t, time);
    CreatedAtLast(init + [last], t, time);
  }

  lemma {:induction false} SortedPermutes(tokens: seq<Token>)
    ensures multiset(Sorted(tokens)) == multiset(tokens)
  {
    if tokens != [] {
      var init, last := tokens[..|tokens| - 1], tokens[|tokens| - 1];
      SortedPermutes(init);
      InsertPermutes(Sorted(init), last);
      assert tokens == init + [last];
    }
  }

  lemma {:induction false} SortedOrders(tokens: seq<Token>)
    ensures ByCreation(Sorted(tokens))
  {
    if tokens != [] {
      SortedOrders(tokens[..|tokens| - 1]);
      InsertOrders(Sorted(tokens[..|tokens| - 1]), tokens[|tokens| - 1]);
    }
  }

  lemma {:induction false} SortedStable(tokens: seq<Token>, time: int)
    ensures CreatedAt(Sorted(tokens), time) == CreatedAt(tokens, time)
  {
    if tokens != [] {
      var init, last := tokens[..|tokens| - 1], tokens[|tokens| - 1];
      SortedStable(init, time);
      SortedOrders(init);
      InsertStable(Sorted(init), last, time);
      CreatedAtLast(Sorted(init), last, time);
    }
  }

  /** The listed tokens are the same, in the order of their creation, and in dict order where that is equal. */
  lemma SortedByCreation(tokens: seq<Token>, time: int)
    ensures ByCreation(Sorted(tokens)) && multiset(Sorted(tokens)) == multiset(tokens)
    ensures CreatedAt(Sorted(tokens), time) == CreatedAt(tokens, time)
  {
    SortedOrders(tokens);
    SortedPermutes(tokens);
    SortedStable(tokens, time);
  }

  class TokenStore {
    var now: int
    var tokens: seq<Token>
    var files: map<string, Token>
    ghost var used: set<string>
    ghost var hashes: set<string>

    ghost function State(): Store
      reads this
    {
      Store(now, tokens, files, used, hashes)
    }

    constructor ()
      ensures State() == STARTED && Inv(State())
    {
      now, tokens, files, used, hashes := 0, [], map[], {}, {};
    }

    method CreateToken(id: string, scope: string, ttl: int, hash: string) returns (r: Created)
      requires Inv(State()) && id !in used && hash !in hashes
      modifies this
      ensures State() == Create(old(State()), id, scope, ttl, hash) && Inv(State())
      ensures r.BadTtl? <==> ttl <= 0 || ttl > 86400
      ensures r.BadScope? <==> 0 < ttl <= 86400 && Normalize(scope) == ""
      ensures r.Issued? ==> r.token == Token(id, Normalize(scope), now, At(now + ttl), false, hash)
      ensures r.Issued? ==> tokens == old(tokens) + [r.token] && files == old(files)[id := r.token]
      ensures !r.Issued? ==> tokens == old(tokens) && files == old(files)
    {
      CreateInv(State(), id, scope, ttl, hash);
      if ttl <= 0 || ttl > MAX_TTL {
        return BadTtl;
      }
      var normalized := Normalize(scope);
      if normalized == "" {
        return BadScope;
      }
      var token := Token(id, normalized, now, At(now + ttl), false, hash);
      tokens, files := tokens + [token], files[id := token];
      used, hashes := used + {id}, hashes + {hash};
      return Issued(token);
    }

    method DeleteToken(id: string) returns (deleted: bool)
      modifies this`tokens, this`files
      ensures State() == Drop(old(State()), {id}) && deleted == Has(old(tokens), id)
    {
      files := files - {id};
      deleted := Has(tokens, id);
      tokens := Remaining(tokens, {id});
    }

    /** authenticate, given the digest of the bearer: it stops at the token it belongs to. */
    method AuthenticateBearer(hash: string, path: string) returns (r: Option<Token>)
      requires Inv(State())
      modifies this`tokens, this`files
      ensures State() == Authenticate(old(State()), hash) && Inv(State())
      ensures r == Found(old(State()), hash, path)
      ensures forall t :: r == Some(t) <==>
                t in old(tokens) && t.hash == hash && Timely(t, now) && !t.revoked && ScopeAllows(t.scope, path)
      ensures forall i :: 0 <= i < |old(tokens)| ==>
                (old(tokens)[i] in tokens <==>
                   Timely(old(tokens)[i], now)
                   || exists t :: t in old(tokens)[..i] && t.hash == hash && Timely(t, now) && !t.revoked)
    {
      AuthenticateFacts(State(), hash, path);
      r := Search(hash, path);
    }

    static lemma AuthenticateFacts(s: Store, hash: string, path: string)
      requires Inv(s)
      ensures forall t :: Found(s, hash, path) == Some(t) <==>
                t in s.tokens && t.hash == hash && Timely(t, s.now) && !t.revoked && ScopeAllows(t.scope, path)
      ensures forall i :: 0 <= i < |s.tokens| ==>
                (s.tokens[i] in Authenticate(s, hash).tokens <==>
                   Timely(s.tokens[i], s.now)
                   || exists t :: t in s.tokens[..i] && t.hash == hash && Timely(t, s.now) && !t.revoked)
    {
      forall t ensures Found(s, hash, path) == Some(t)
        <==> t in s.tokens && t.hash == hash && Timely(t, s.now) && !t.revoked && ScopeAllows(t.scope, path)
      {
        AuthenticatesExactly(s, hash, path, t);
      }
      forall i | 0 <= i < |s.tokens| ensures s.tokens[i] in Authenticate(s, hash).tokens <==>
          Timely(s.tokens[i], s.now)
          || exists t :: t in s.tokens[..i] && t.hash == hash && Timely(t, s.now) && !t.revoked
      {
        AuthenticateDeletes(s, hash, i);
      }
    }

    /** The loop of authenticate. */
    method Search(hash: string, path: string) returns (r: Option<Token>)
      requires Inv(State())
      modifies this`tokens, this`files
      ensures State() == Authenticate(old(State()), hash) && Inv(State())
      ensures r == Found(old(State()), hash, path)
    {
      ghost var s, gone := State(), {};
      DropInv(s, Met(tokens, hash, now));
      DropNothing(s);
      var values := tokens;
      for i := 0 to |values|
        invariant State() == Drop(s, gone) && values == s.tokens && now == s.now
        invariant gone + Met(values[i..], hash, now) == Met(values, hash, now)
        invariant Match(values[i..], hash, now) == Match(values, hash, now)
      {
        var token := values[i];
        assert values[i..][1..] == values[i + 1..];
        if IsExpired(token, now) {
          DropOneMore(s, gone, token.id);
          var _ := DeleteToken(token.id);
          gone := gone + {token.id};
        } else if !token.revoked && token.hash == hash {
          assert gone == Met(values, hash, now);
          return if ScopeAllows(token.scope, path) then Some(token) else None;
        }
      }
      assert gone == Met(values, hash, now);
      r := None;
    }

    /** list: revoked tokens are listed, expired ones deleted. */
    method ListTokens() returns (active: seq<Token>)
      requires Inv(State())
      modifies this`tokens, this`files
      ensures State() == Clean(old(State())) && Inv(State())
      ensures active == Sorted(tokens)
      ensures forall t :: t in active <==> t in old(tokens) && Timely(t, now)
    {
      CleanupExpired();
      active := Sorted(tokens);
      SortedPermutes(tokens);
      assert forall t :: t in active <==> t in multiset(active);
    }

    /** cleanup_expired, and the deletions of list. */
    method CleanupExpired()
      requires Inv(State())
      modifies this`tokens, this`files
      ensures State() == Clean(old(State())) && Inv(State())
      ensures forall t :: t in tokens <==> t in old(tokens) && Timely(t, now)
      ensures forall id :: id in files <==> id in old(files) && Timely(old(files)[id], now)
    {
      CleanDeletes(State());
      DeleteExpired();
    }

    /** The loop over the ids of the expired tokens. */
    method DeleteExpired()
      requires Inv(State())
      modifies this`tokens, this`files
      ensures State() == Clean(old(State())) && Inv(State())
    {
      ghost var s := State();
      DropInv(s, ExpiredIds(tokens, now));
      DropNothing(s);
      ghost var gone := {};
      var values := tokens;
      for i := 0 to |values|
        invariant State() == Drop(s, gone) && values == s.tokens && now == s.now
        invariant gone == ExpiredIds(values[..i], now)
      {
        ExpiredOneMore(values, i, now);
        if IsExpired(values[i], now) {
          DropOneMore(s, gone, values[i].id);
          var _ := DeleteToken(values[i].id);
          gone := gone + {values[i].id};
        }
      }
      assert values[..|values|] == values;
    }

    static lemma ExpiredOneMore(values: seq<Token>, i: nat, now: int)
      requires i < |values|
      ensures ExpiredIds(values[..i + 1], now)
              == ExpiredIds(values[..i], now) + (if IsExpired(values[i], now) then {values[i].id} else {})
    {
      var more, less := values[..i + 1], values[..i];
      assert more == less + [values[i]];
    }

    method RevokeToken(id: string) returns (ok: bool)
      requires Inv(State())
      modifies this`tokens, this`files
      ensures State() == Revoke(old(State()), id) && Inv(State())
      ensures ok == Has(old(tokens), id)
      ensures |tokens| == |old(tokens)| && forall i :: 0 <= i < |tokens| ==>
                tokens[i] == if old(tokens)[i].id == id then old(tokens)[i].(revoked := true) else old(tokens)[i]
      ensures ok ==> id in old(files) && files == old(files)[id := old(files)[id].(revoked := true)]
      ensures !ok ==> files == old(files)
    {
      RevokeInv(State(), id);
      MarkedAt(tokens, id);
      ghost var next := Revoke(State(), id);
      ok := Has(tokens, id);
      if ok {
        var token := Find(tokens, id).(revoked := true);
        tokens := Marked(tokens, id);
        files := files[id := token];
        assert State() == next;
      }
    }

    static lemma RestartKeeps(s: Store, order: seq<string>, torn: set<string>)
      requires Inv(s) && Lists(order, s.disk)
      ensures var u := Restart(s, order, torn);
              && (forall id :: id in u.disk <==> id in s.disk && id !in torn && Timely(s.disk[id], s.now))
              && (forall id :: id in u.disk ==> u.disk[id] == s.disk[id])
              && (forall t :: t in u.tokens <==> t.id in u.disk && u.disk[t.id] == t)
    {
      ReadMembers(s.disk - torn, order, s.now);
    }

    /** A new process: an empty dict, and recover over the files, of which those in torn cannot be read. */
    method Recover(order: seq<string>, torn: set<string>)
      requires Inv(State()) && Lists(order, files)
      modifies this`tokens, this`files
      ensures State() == Restart(old(State()), order, torn) && Inv(State())
      ensures forall id :: id in files <==> id in old(files) && id !in torn && Timely(old(files)[id], now)
      ensures forall id :: id in files ==> files[id] == old(files)[id]
      ensures forall t :: t in tokens <==> t.id in files && files[t.id] == t
    {
      RestartKeeps(State(), order, torn);
      Reload(order, torn);
    }

    static lemma RestartFields(s: Store, order: seq<string>, torn: set<string>)
      ensures Restart(s, order, torn)
              == Store(s.now, Read(s.disk - torn, order, s.now), Unread(s.disk, torn, [], s.now), s.used, s.hashes)
    {
      assert Restart(s, order, torn).disk == Unread(s.disk, torn, [], s.now);
    }

    method Reload(order: seq<string>, torn: set<string>)
      requires Inv(State()) && Lists(order, files)
      modifies this`tokens, this`files
      ensures State() == Restart(old(State()), order, torn) && Inv(State())
    {
      RestartInv(State(), order, torn);
      RestartFields(State(), order, torn);
      tokens := [];
      ReadFiles(order, torn);
    }

    /** The loop of recover: the file of an expired token is unlinked, like an unreadable one. */
    method ReadFiles(order: seq<string>, torn: set<string>)
      requires Lists(order, files) && tokens == []
      modifies this`tokens, this`files
      ensures tokens == Read(old(files) - torn, order, now) && files == Unread(old(files), torn, [], now)
    {
      ghost var disk := files;
      assert Unread(disk, torn, order, now) == disk && order[0..] == order;
      for i := 0 to |order|
        invariant tokens + Read(disk - torn, order[i..], now) == Read(disk - torn, order, now)
        invariant files == Unread(disk, torn, order[i..], now)
      {
        ReadNext(disk, torn, order, i, now, tokens);
        ReadFile(order[i], order[i] in torn);
      }
      assert order[|order|..] == [] && tokens + [] == tokens;
    }

    method ReadFile(id: string, torn: bool)
      requires id in files
      modifies this`tokens, this`files
      ensures var kept := !torn && !IsExpired(old(files)[id], now);
              && tokens == (if kept then old(tokens) + [old(files)[id]] else old(tokens))
              && files == (if kept then old(files) else old(files) - {id})
    {
      if torn || IsExpired(files[id], now) {
        files := files - {id};
      } else {
        tokens := tokens + [files[id]];
      }
    }
  }
}
