/** When a lookup of the API key service (api/apikey/service.go) is outdated: users can be saved without
    the invalidation of their entries, as api/http/handler/users/user_update_password.go does. */
module ApiKeyHistory {
  import opened ApiKeys
  import opened LruCache
  import opened Wrappers

  /** How many operations had been done when the entry for this digest was last read into the cache. */
  ghost function ReadAt(ops: seq<Op>, digest: string): (n: nat)
    ensures n <= |ops|
  {
    if ops == [] then 0
    else
      var before := ops[..|ops| - 1];
      if Lookup(After(before).cache, digest).Some? then ReadAt(before, digest) else |ops| - 1
  }

  /** The user half of a cached entry is as it was in the cache before, or has just been read. */
  ghost predicate Came(s: State, x: Slot<Entry>) {
    match Lookup(s.cache, x.key)
    case Some(e) => e.user == x.value.user
    case None => x.value.user.id in s.repo.users && s.repo.users[x.value.user.id] == x.value.user
  }

  lemma Stayed(s: State, x: Slot<Entry>, y: Slot<Entry>)
    requires Distinct(s.cache) && y in s.cache && y.key == x.key && y.value.user == x.value.user
    ensures Came(s, x)
  {
    var i :| 0 <= i < |s.cache| && s.cache[i] == y;
    LookupFinds(s.cache, i);
  }

  lemma CameByLookup(s: State, digest: string, dirty: set<nat>, x: Slot<Entry>)
    requires CoherentBut(s, dirty, None) && x in Looked(s, digest).0.cache
    ensures Came(s, x)
  {
    LookupContents(s.cache, digest);
    FilterContents(s.cache, (y: Slot<Entry>) => y.key != digest, x);
    if x in s.cache {
      Stayed(s, x, x);
    } else if Direct(s.repo, digest).Some? {
      FirstKeyMisses(s.repo.keys, digest, s.repo.nextId);
      FilterContents(s.cache, (y: Slot<Entry>) => y.key != Direct(s.repo, digest).value.key.digest, x);
    }
  }

  lemma {:induction false} KeysDeletedOnlyRemove(s: State, userId: nat, n: nat, x: Slot<Entry>)
    requires x in KeysDeleted(s, userId, n).cache
    ensures x in s.cache
  {
    if n > 0 {
      var before := KeysDeleted(s, userId, n - 1);
      if n - 1 in before.repo.keys {
        var digest := before.repo.keys[n - 1].digest;
        FilterContents(before.cache, (y: Slot<Entry>) => y.key != digest, x);
      }
      KeysDeletedOnlyRemove(s, userId, n - 1, x);
    }
  }

  lemma CameByGeneration(s: State, user: User, description: string, digest: string, dirty: set<nat>, x: Slot<Entry>)
    requires CoherentBut(s, dirty, None) && Legal(s.repo, Generate(user, description, digest))
    requires x in Generated(s, user, description, digest).cache
    ensures Came(s, x)
  {
    FilterContents(s.cache, (y: Slot<Entry>) => y.key != digest, x);
    if x in s.cache {
      Stayed(s, x, x);
    } else {
      LookupContents(s.cache, digest);
    }
  }

  lemma CameByUpdate(s: State, key: ApiKey, dirty: set<nat>, x: Slot<Entry>)
    requires CoherentBut(s, dirty, None) && x in Updated(s, key, true).cache
    ensures Came(s, x)
  {
    var (t, found) := Looked(s, key.digest);
    FilterContents(t.cache, (y: Slot<Entry>) => y.key != key.digest, x);
    if x in t.cache {
      CameByLookup(s, key.digest, dirty, x);
    } else if Lookup(s.cache, key.digest).None? {
      FirstKeyMisses(s.repo.keys, key.digest, s.repo.nextId);
    }
  }

  /** Every entry in the cache was there before, with the same user half, or has just been read. */
  lemma EntriesCame(s: State, op: Op, dirty: set<nat>, x: Slot<Entry>)
    requires CoherentBut(s, dirty, None) && Legal(s.repo, op) && x in Apply(s, op).cache
    ensures Came(s, x)
  {
    match op
    case Find(digest) => CameByLookup(s, digest, dirty, x);
    case Generate(user, description, digest) => CameByGeneration(s, user, description, digest, dirty, x);
    case Update(key) => CameByUpdate(s, key, dirty, x);
    case Delete(id) =>
      if id in s.repo.keys {
        var digest := s.repo.keys[id].digest;
        FilterContents(s.cache, (y: Slot<Entry>) => y.key != digest, x);
      }
      Stayed(s, x, x);
    case Save(user) =>
      FilterContents(s.cache, Keeping(OfUser(user.id)), x);
      Stayed(s, x, x);
    case SaveOnly(_) => Stayed(s, x, x);
    case Remove(userId) =>
      KeysDeletedOnlyRemove(s.(repo := s.repo.(users := s.repo.users - {userId})), userId, s.repo.nextId, x);
      Stayed(s, x, x);
  }

  /** The users as they were stored when the entry for this digest was read. */
  ghost function UsersWhenRead(ops: seq<Op>, digest: string): map<nat, User> {
    ReferenceAfter(ops[..ReadAt(ops, digest)]).users
  }

  lemma {:induction false} CachedAsRead(ops: seq<Op>, x: Slot<Entry>)
    requires LegalRun(ops) && x in After(ops).cache
    ensures var users := UsersWhenRead(ops, x.key);
            x.value.user.id in users && users[x.value.user.id] == x.value.user
  {
    if ops != [] {
      var last := |ops| - 1;
      var before := ops[..last];
      var s := After(before);
      RunIsCoherent(before);
      EntriesCame(s, ops[last], Dirty(before), x);
      LookupContents(s.cache, x.key);
      match Lookup(s.cache, x.key)
      case Some(e) =>
        CachedAsRead(before, Slot(x.key, e));
        assert ops[..ReadAt(before, x.key)] == before[..ReadAt(before, x.key)];
      case None =>
    }
  }

  /** A lookup answers the key as it is and its owner as it was stored when the entry was read. So it
      is outdated iff the digest is cached and its owner's record has changed since then. */
  lemma LookupIsAsRead(ops: seq<Op>, digest: string)
    requires LegalRun(ops)
    ensures var (found, direct) := (Looked(After(ops), digest).1, Direct(ReferenceAfter(ops), digest));
            if Lookup(After(ops).cache, digest).None? then found == direct
            else
              && direct.Some? && direct.value.user.id in UsersWhenRead(ops, digest)
              && found == Some(Entry(UsersWhenRead(ops, digest)[direct.value.user.id], direct.value.key))
              && (found == direct <==> UsersWhenRead(ops, digest)[direct.value.user.id] == direct.value.user)
  {
    RunIsCoherent(ops);
    LookupIsNearlyDirect(After(ops), digest, Dirty(ops));
    LookupContents(After(ops).cache, digest);
    if Lookup(After(ops).cache, digest).Some? {
      CachedAsRead(ops, Slot(digest, Lookup(After(ops).cache, digest).value));
    }
  }

  /** A user is stored and gets a key. */
  lemma FirstKeyOf(user: User, digest: string)
    ensures var ops := [Save(user), Generate(user, "", digest)];
            var key := ApiKey(0, user.id, digest, "", 0);
            var repo := Repository(map[0 := key], map[user.id := user], 1);
            && LegalRun(ops) && ReferenceAfter(ops) == repo
            && After(ops) == State(repo, [Slot(digest, Entry(user, key))])
  {
    var a, b := Save(user), Generate(user, "", digest);
    assert [] + [a] == [a] && [a] + [b] == [a, b];
    AfterOneMore([], a);
    AfterOneMore([a], b);
    assert After([a]) == State(Repository(map[], map[user.id := user], 0), []);
    assert Added([], digest, Entry(user, ApiKey(0, user.id, digest, "", 0)), CACHE_SIZE)
        == [Slot(digest, Entry(user, ApiKey(0, user.id, digest, "", 0)))];
  }

  /** The shortest run with an outdated lookup: a user with a key changes their password. */
  lemma PasswordChangeIsMissed()
    ensures var (was, now) := (User(1, "old"), User(1, "new"));
            var ops := [Save(was), Generate(was, "", "digest"), SaveOnly(now)];
            var key := ApiKey(0, 1, "digest", "", 0);
            && LegalRun(ops)
            && Looked(After(ops), "digest").1 == Some(Entry(was, key))
            && Direct(ReferenceAfter(ops), "digest") == Some(Entry(now, key))
  {
    var was, now := User(1, "old"), User(1, "new");
    var ops := [Save(was), Generate(was, "", "digest")];
    var key := ApiKey(0, 1, "digest", "", 0);
    FirstKeyOf(was, "digest");
    assert ops + [SaveOnly(now)] == [Save(was), Generate(was, "", "digest"), SaveOnly(now)];
    AfterOneMore(ops, SaveOnly(now));
    assert map[1 := was][1 := now] == map[1 := now];
    assert FirstKey(map[0 := key], "digest", 0) == None;
  }
}
