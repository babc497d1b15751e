/** The API key service (api/apikey/service.go): a repository of keys and users behind a
    least-recently-used cache of both, keyed by digest. */
module ApiKeys {
  import opened LruCache
  import opened Wrappers

  datatype User = User(id: nat, profile: string)

  datatype ApiKey = ApiKey(id: nat, userId: nat, digest: string, description: string, lastUsed: int)

  datatype Entry = Entry(user: User, key: ApiKey)

  const CACHE_SIZE: nat := 1024

  /** The two repositories; keys are numbered below nextId. */
  datatype Repository = Repository(keys: map<nat, ApiKey>, users: map<nat, User>, nextId: nat)

  datatype State = State(repo: Repository, cache: seq<Slot<Entry>>)

  /** The first key, by identifier, with this digest. */
  function FirstKey(keys: map<nat, ApiKey>, digest: string, n: nat): Option<ApiKey> {
    if n == 0 then None
    else match FirstKey(keys, digest, n - 1)
         case Some(k) => Some(k)
         case None => if n - 1 in keys && keys[n - 1].digest == digest then Some(keys[n - 1]) else None
  }

  /** What the two repository reads alone answer. */
  function Direct(repo: Repository, digest: string): Option<Entry> {
    match FirstKey(repo.keys, digest, repo.nextId)
    case None => None
    case Some(k) => if k.userId in repo.users then Some(Entry(repo.users[k.userId], k)) else None
  }

  // ----- the operations, on states

  function Looked(s: State, digest: string): (State, Option<Entry>) {
    match Lookup(s.cache, digest)
    case Some(e) => (s.(cache := Touched(s.cache, digest)), Some(e))
    case None =>
      match Direct(s.repo, digest)
      case None => (s, None)
      case Some(e) => (s.(cache := Added(s.cache, e.key.digest, e, CACHE_SIZE)), Some(e))
  }

  function Generated(s: State, user: User, description: string, digest: string): State {
    var key := ApiKey(s.repo.nextId, user.id, digest, description, 0);
    State(s.repo.(keys := s.repo.keys[key.id := key], nextId := s.repo.nextId + 1),
          Added(s.cache, digest, Entry(user, key), CACHE_SIZE))
  }

  /** `written` tells whether the repository write succeeds. */
  function Updated(s: State, key: ApiKey, written: bool): State {
    var (s', found) := Looked(s, key.digest);
    match found
    case None => s'
    case Some(e) =>
      State(if written then s'.repo.(keys := s'.repo.keys[key.id := key]) else s'.repo,
            Added(s'.cache, key.digest, Entry(e.user, key), CACHE_SIZE))
  }

  function Deleted(s: State, id: nat, written: bool): State {
    if id !in s.repo.keys then s
    else State(if written then s.repo.(keys := s.repo.keys - {id}) else s.repo,
               Without(s.cache, s.repo.keys[id].digest))
  }

  /** compareUser. */
  function OfUser(userId: nat): Entry -> bool {
    (e: Entry) => e.user.id == userId
  }

  function Invalidated(s: State, userId: nat): State {
    s.(cache := Filter(s.cache, Keeping(OfUser(userId))))
  }

  /** A user is saved and its entries are invalidated. */
  function UserSaved(s: State, user: User): State {
    Invalidated(s.(repo := s.repo.(users := s.repo.users[user.id := user])), user.id)
  }

  /** A user is removed, and then each of its keys below n is deleted. */
  function KeysDeleted(s: State, userId: nat, n: nat): State {
    if n == 0 then s else OwnKeyDeleted(KeysDeleted(s, userId, n - 1), userId, n - 1)
  }

  function UserRemoved(s: State, userId: nat): State {
    KeysDeleted(s.(repo := s.repo.(users := s.repo.users - {userId})), userId, s.repo.nextId)
  }

  // ----- the code

  class Service {
    var repo: Repository
    const cache: Cache<Entry>

    ghost predicate Valid()
      reads this, cache
    {
      cache.Valid() && cache.capacity == CACHE_SIZE
    }

    ghost function Abs(): State
      reads this, cache
    {
      State(repo, cache.slots)
    }

    constructor ()
      ensures Valid() && Abs() == State(Repository(map[], map[], 0), [])
    {
      repo := Repository(map[], map[], 0);
      cache := new Cache(CACHE_SIZE);
    }

    /** The repository's scan for a digest. */
    method GetAPIKeyByDigest(digest: string) returns (key: Option<ApiKey>)
      ensures key == FirstKey(repo.keys, digest, repo.nextId)
    {
      key := None;
      for i := 0 to repo.nextId
        invariant key == FirstKey(repo.keys, digest, i)
      {
        if key.None? && i in repo.keys && repo.keys[i].digest == digest {
          key := Some(repo.keys[i]);
        }
      }
    }

    method GetDigestUserAndKey(digest: string) returns (r: Option<Entry>)
      requires Valid()
      modifies cache
      ensures Valid() && repo == old(repo)
      ensures (Abs(), r) == Looked(old(Abs()), digest)
    {
      r := cache.Get(digest);
      if r.Some? {
        return;
      }
      assert cache.slots == old(cache.slots);
      var key := GetAPIKeyByDigest(digest);
      if key.None? || key.value.userId !in repo.users {
        return None;
      }
      var user := repo.users[key.value.userId];
      cache.Add(key.value.digest, Entry(user, key.value));
      r := Some(Entry(user, key.value));
    }

    /** The digest is that of the random key; `created` tells whether the repository accepts it. */
    method GenerateApiKey(user: User, description: string, digest: string, created: bool) returns (key: Option<ApiKey>)
      requires Valid()
      modifies this`repo, cache
      ensures Valid()
      ensures created ==> Abs() == Generated(old(Abs()), user, description, digest)
      ensures created ==> key == Some(ApiKey(old(repo.nextId), user.id, digest, description, 0))
      ensures !created ==> Abs() == old(Abs()) && key == None
    {
      if !created {
        return None;
      }
      var k := ApiKey(repo.nextId, user.id, digest, description, 0);
      repo := repo.(keys := repo.keys[k.id := k], nextId := repo.nextId + 1);
      cache.Add(k.digest, Entry(user, k));
      key := Some(k);
    }

    method UpdateAPIKey(key: ApiKey, written: bool) returns (ok: bool)
      requires Valid()
      modifies this`repo, cache
      ensures Valid() && Abs() == Updated(old(Abs()), key, written)
      ensures ok == (written && Looked(old(Abs()), key.digest).1.Some?)
    {
      var found := GetDigestUserAndKey(key.digest);
      if found.None? {
        return false;
      }
      cache.Add(key.digest, Entry(found.value.user, key));
      if written {
        repo := repo.(keys := repo.keys[key.id := key]);
      }
      ok := written;
    }

    method DeleteAPIKey(id: nat, written: bool) returns (ok: bool)
      requires Valid()
      modifies this`repo, cache
      ensures Valid() && Abs() == Deleted(old(Abs()), id, written)
      ensures ok == (written && id in old(repo.keys))
    {
      if id !in repo.keys {
        return false;
      }
      var _ := cache.Remove(repo.keys[id].digest);
      if written {
        repo := repo.(keys := repo.keys - {id});
      }
      ok := written;
    }

    /** Removes exactly that user's entries, and leaves the others in their order. */
    method InvalidateUserKeyCache(userId: nat) returns (present: bool)
      requires Valid()
      modifies cache
      ensures Valid() && Abs() == Invalidated(old(Abs()), userId)
      ensures present <==> exists i :: 0 <= i < |old(cache.slots)| && old(cache.slots)[i].value.user.id == userId
    {
      present := cache.RemoveAll(OfUser(userId));
    }
  }

  // ----- coherence

  /** A cached entry is the key that the repositories hold, with its owner. For owners in `dirty` the
      user half may be an older one, and owner `gone` may have been removed. */
  predicate Right(repo: Repository, slot: Slot<Entry>, dirty: set<nat>, gone: Option<nat>) {
    var key, user := slot.value.key, slot.value.user;
    && slot.key == key.digest && key.id in repo.keys && repo.keys[key.id] == key && user.id == key.userId
    && (gone == Some(user.id)
        || (user.id in repo.users && (user.id in dirty || repo.users[user.id] == user)))
  }

  ghost predicate Sound(repo: Repository) {
    && (forall i :: i in repo.keys ==> repo.keys[i].id == i && i < repo.nextId)
    && (forall i, j :: i in repo.keys && j in repo.keys && repo.keys[i].digest == repo.keys[j].digest ==> i == j)
    && (forall u :: u in repo.users ==> repo.users[u].id == u)
  }

  ghost predicate CoherentBut(s: State, dirty: set<nat>, gone: Option<nat>) {
    && Sound(s.repo) && Distinct(s.cache) && |s.cache| <= CACHE_SIZE
    && forall x :: x in s.cache ==> Right(s.repo, x, dirty, gone)
  }

  ghost predicate Coherent(s: State) { CoherentBut(s, {}, None) }

  lemma {:induction false} FirstKeyIs(repo: Repository, id: nat, n: nat)
    requires Sound(repo) && id in repo.keys
    ensures FirstKey(repo.keys, repo.keys[id].digest, n) == if id < n then Some(repo.keys[id]) else None
  {
    if n > 0 {
      FirstKeyIs(repo, id, n - 1);
    }
  }

  lemma {:induction false} FirstKeyMisses(keys: map<nat, ApiKey>, digest: string, n: nat)
    ensures FirstKey(keys, digest, n).None? <==> forall i: nat :: i < n && i in keys ==> keys[i].digest != digest
    ensures FirstKey(keys, digest, n).Some? ==> exists i: nat :: i < n && i in keys && keys[i] == FirstKey(keys, digest, n).value && keys[i].digest == digest
  {
    if n > 0 {
      FirstKeyMisses(keys, digest, n - 1);
    }
  }

  /** A lookup answers the key that the repositories alone would, and the user that they would, unless
      that user is dirty and cached. */
  lemma LookupIsNearlyDirect(s: State, digest: string, dirty: set<nat>)
    requires CoherentBut(s, dirty, None)
    ensures var (found, direct) := (Looked(s, digest).1, Direct(s.repo, digest));
            && (found.Some? <==> direct.Some?)
            && (found.Some? ==> found.value.key == direct.value.key && found.value.user.id == found.value.key.userId)
            && (found.Some? && found.value.user.id !in dirty ==> found == direct)
            && (Lookup(s.cache, digest).None? ==> found == direct)
  {
    LookupContents(s.cache, digest);
    match Lookup(s.cache, digest)
    case None =>
      FirstKeyMisses(s.repo.keys, digest, s.repo.nextId);
    case Some(e) =>
      assert Right(s.repo, Slot(digest, e), dirty, None);
      FirstKeyIs(s.repo, e.key.id, s.repo.nextId);
  }

  /** In a coherent state a lookup answers what the repositories alone would. */
  lemma LookupIsDirect(s: State, digest: string)
    requires Coherent(s)
    ensures Looked(s, digest).1 == Direct(s.repo, digest)
  {
    LookupIsNearlyDirect(s, digest, {});
  }

  /** Adding a right entry keeps the cache right. */
  lemma AddKeepsCoherent(s: State, key: string, e: Entry, dirty: set<nat>)
    requires CoherentBut(s, dirty, None) && Right(s.repo, Slot(key, e), dirty, None)
    ensures CoherentBut(s.(cache := Added(s.cache, key, e, CACHE_SIZE)), dirty, None)
  {
    DistinctAfterPush(s.cache, key, e);
    var more := Without(s.cache, key) + [Slot(key, e)];
    forall x | x in more ensures Right(s.repo, x, dirty, None) {
      FilterContents(s.cache, (y: Slot<Entry>) => y.key != key, x);
    }
  }

  lemma FilterKeepsCoherent(s: State, keep: Slot<Entry> -> bool, dirty: set<nat>, gone: Option<nat>)
    requires CoherentBut(s, dirty, gone)
    ensures CoherentBut(s.(cache := Filter(s.cache, keep)), dirty, gone)
  {
    FilterKeepsDistinct(s.cache, keep);
    forall x | x in Filter(s.cache, keep) ensures Right(s.repo, x, dirty, gone) {
      FilterContents(s.cache, keep, x);
    }
  }

  lemma LookedKeepsCoherent(s: State, digest: string, dirty: set<nat>)
    requires CoherentBut(s, dirty, None)
    ensures CoherentBut(Looked(s, digest).0, dirty, None)
  {
    LookupContents(s.cache, digest);
    match Lookup(s.cache, digest)
    case Some(e) =>
      DistinctAfterPush(s.cache, digest, e);
      WithoutShrinks(s.cache, digest);
      forall x | x in Touched(s.cache, digest) ensures Right(s.repo, x, dirty, None) {
        FilterContents(s.cache, (y: Slot<Entry>) => y.key != digest, x);
      }
    case None =>
      if Direct(s.repo, digest).Some? {
        var e := Direct(s.repo, digest).value;
        FirstKeyMisses(s.repo.keys, digest, s.repo.nextId);
        AddKeepsCoherent(s, e.key.digest, e, dirty);
      }
  }

  // ----- what every operation does to the cache

  /** `Save` is followed by the invalidation of the user's entries; `SaveOnly` is not. */
  datatype Op =
    | Find(digest: string)
    | Generate(user: User, description: string, digest: string)
    | Update(key: ApiKey)
    | Delete(id: nat)
    | Save(user: User)
    | SaveOnly(user: User)
    | Remove(userId: nat)

  function Apply(s: State, op: Op): State {
    match op
    case Find(digest) => Looked(s, digest).0
    case Generate(user, description, digest) => Generated(s, user, description, digest)
    case Update(key) => Updated(s, key, true)
    case Delete(id) => Deleted(s, id, true)
    case Save(user) => UserSaved(s, user)
    case SaveOnly(user) => s.(repo := s.repo.(users := s.repo.users[user.id := user]))
    case Remove(userId) => UserRemoved(s, userId)
  }

  /** The same operations on the repositories alone, without any cache. */
  function Reference(repo: Repository, op: Op): Repository {
    match op
    case Find(_) => repo
    case Generate(user, description, digest) =>
      repo.(keys := repo.keys[repo.nextId := ApiKey(repo.nextId, user.id, digest, description, 0)], nextId := repo.nextId + 1)
    case Update(key) => if Direct(repo, key.digest).Some? then repo.(keys := repo.keys[key.id := key]) else repo
    case Delete(id) => repo.(keys := repo.keys - {id})
    case Save(user) => repo.(users := repo.users[user.id := user])
    case SaveOnly(user) => repo.(users := repo.users[user.id := user])
    case Remove(userId) =>
      repo.(users := repo.users - {userId}, keys := map i | i in repo.keys && repo.keys[i].userId != userId :: repo.keys[i])
  }

  /** Whose entries may be outdated: a user that was saved without an invalidation since. */
  function Dirtied(dirty: set<nat>, op: Op): set<nat> {
    match op
    case Save(user) => dirty - {user.id}
    case SaveOnly(user) => dirty + {user.id}
    case Remove(userId) => dirty - {userId}
    case _ => dirty
  }

  /** What the callers keep to: keys are generated for stored users with new digests, and an update
      leaves a key's identifier, digest and owner alone. */
  ghost predicate Legal(repo: Repository, op: Op) {
    match op
    case Generate(user, _, digest) =>
      user.id in repo.users && repo.users[user.id] == user && forall i :: i in repo.keys ==> repo.keys[i].digest != digest
    case Update(key) =>
      Direct(repo, key.digest).Some? ==>
        key.id in repo.keys && repo.keys[key.id].digest == key.digest && repo.keys[key.id].userId == key.userId
    case _ => true
  }

  lemma GeneratedKeepsCoherent(s: State, user: User, description: string, digest: string, dirty: set<nat>)
    requires CoherentBut(s, dirty, None) && Legal(s.repo, Generate(user, description, digest))
    ensures CoherentBut(Generated(s, user, description, digest), dirty, None)
  {
    var key := ApiKey(s.repo.nextId, user.id, digest, description, 0);
    var s' := s.(repo := s.repo.(keys := s.repo.keys[key.id := key], nextId := s.repo.nextId + 1));
    forall x | x in s.cache ensures Right(s'.repo, x, dirty, None) {
      assert Right(s.repo, x, dirty, None);
    }
    AddKeepsCoherent(s', digest, Entry(user, key), dirty);
  }

  /** Between the two writes of an update only the entry being replaced is amiss. */
  lemma UpdatedKeepsCoherent(s: State, key: ApiKey, dirty: set<nat>)
    requires CoherentBut(s, dirty, None) && Legal(s.repo, Update(key))
    ensures CoherentBut(Updated(s, key, true), dirty, None)
    ensures Updated(s, key, true).repo == Reference(s.repo, Update(key))
  {
    LookedKeepsCoherent(s, key.digest, dirty);
    LookupIsNearlyDirect(s, key.digest, dirty);
    var (t, found) := Looked(s, key.digest);
    if found.Some? {
      FirstKeyIs(s.repo, key.id, s.repo.nextId);
      FoundIsRight(s, key.digest, dirty);
      var repo' := t.repo.(keys := t.repo.keys[key.id := key]);
      Swapped(t, repo', key, found.value.user, dirty);
    }
  }

  /** What a lookup finds is a right entry. */
  lemma FoundIsRight(s: State, digest: string, dirty: set<nat>)
    requires CoherentBut(s, dirty, None) && Looked(s, digest).1.Some?
    ensures Right(s.repo, Slot(digest, Looked(s, digest).1.value), dirty, None)
  {
    LookupContents(s.cache, digest);
    FirstKeyMisses(s.repo.keys, digest, s.repo.nextId);
  }

  /** The cache with the new entry is right for the repositories with the new key. */
  lemma Swapped(t: State, repo': Repository, key: ApiKey, user: User, dirty: set<nat>)
    requires CoherentBut(t, dirty, None) && key.id in t.repo.keys
    requires t.repo.keys[key.id].digest == key.digest && t.repo.keys[key.id].userId == key.userId
    requires Right(t.repo, Slot(key.digest, Entry(user, t.repo.keys[key.id])), dirty, None)
    requires repo' == t.repo.(keys := t.repo.keys[key.id := key])
    ensures CoherentBut(State(repo', Added(t.cache, key.digest, Entry(user, key), CACHE_SIZE)), dirty, None)
  {
    var e := Entry(user, key);
    DistinctAfterPush(t.cache, key.digest, e);
    var more := Without(t.cache, key.digest) + [Slot(key.digest, e)];
    forall x | x in more ensures Right(repo', x, dirty, None) {
      FilterContents(t.cache, (y: Slot<Entry>) => y.key != key.digest, x);
      if x in t.cache && x.key != key.digest {
        assert Right(t.repo, x, dirty, None);
      }
    }
  }

  lemma DeletedKeepsCoherent(s: State, id: nat, dirty: set<nat>, gone: Option<nat>)
    requires CoherentBut(s, dirty, gone)
    ensures CoherentBut(Deleted(s, id, true), dirty, gone)
  {
    if id in s.repo.keys {
      var digest := s.repo.keys[id].digest;
      var keep := (y: Slot<Entry>) => y.key != digest;
      FilterKeepsCoherent(s, keep, dirty, gone);
      var s' := Deleted(s, id, true);
      forall x | x in s'.cache ensures Right(s'.repo, x, dirty, gone) {
        FilterContents(s.cache, keep, x);
        assert Right(s.repo, x, dirty, gone);
      }
    }
  }

  lemma UserSavedKeepsCoherent(s: State, user: User, dirty: set<nat>)
    requires CoherentBut(s, dirty, None)
    ensures CoherentBut(UserSaved(s, user), dirty - {user.id}, None)
  {
    var repo' := s.repo.(users := s.repo.users[user.id := user]);
    var keep := Keeping(OfUser(user.id));
    FilterKeepsDistinct(s.cache, keep);
    forall x | x in Filter(s.cache, keep) ensures Right(repo', x, dirty - {user.id}, None) {
      FilterContents(s.cache, keep, x);
      assert Right(s.repo, x, dirty, None);
    }
  }

  lemma SaveOnlyDirties(s: State, user: User, dirty: set<nat>)
    requires CoherentBut(s, dirty, None)
    ensures CoherentBut(Apply(s, SaveOnly(user)), dirty + {user.id}, None)
  {
    forall x | x in s.cache ensures Right(Apply(s, SaveOnly(user)).repo, x, dirty + {user.id}, None) {
      assert Right(s.repo, x, dirty, None);
    }
  }

  /** The keys left when the user's keys below n are gone. */
  function Left(keys: map<nat, ApiKey>, userId: nat, n: nat): map<nat, ApiKey> {
    map i | i in keys && (i >= n || keys[i].userId != userId) :: keys[i]
  }

  /** One turn of the loop over a removed user's keys. */
  function OwnKeyDeleted(s: State, userId: nat, id: nat): State {
    if id in s.repo.keys && s.repo.keys[id].userId == userId then Deleted(s, id, true) else s
  }

  lemma LeftStep(keys: map<nat, ApiKey>, userId: nat, n: nat)
    ensures var before := Left(keys, userId, n);
            Left(keys, userId, n + 1) == if n in before && before[n].userId == userId then before - {n} else before
  {
  }

  lemma {:induction false} KeysDeletedLeave(s: State, userId: nat, n: nat)
    ensures KeysDeleted(s, userId, n).repo == s.repo.(keys := Left(s.repo.keys, userId, n))
  {
    if n == 0 {
      assert Left(s.repo.keys, userId, 0) == s.repo.keys;
    } else {
      KeysDeletedLeave(s, userId, n - 1);
      LeftStep(s.repo.keys, userId, n - 1);
    }
  }

  lemma {:induction false} KeysDeletedKeepsCoherent(s: State, userId: nat, n: nat, dirty: set<nat>)
    requires CoherentBut(s, dirty, Some(userId))
    ensures CoherentBut(KeysDeleted(s, userId, n), dirty, Some(userId))
  {
    if n > 0 {
      KeysDeletedKeepsCoherent(s, userId, n - 1, dirty);
      DeletedKeepsCoherent(KeysDeleted(s, userId, n - 1), n - 1, dirty, Some(userId));
    }
  }

  lemma UserRemovedKeepsCoherent(s: State, userId: nat, dirty: set<nat>)
    requires CoherentBut(s, dirty, None)
    ensures CoherentBut(UserRemoved(s, userId), dirty - {userId}, None)
    ensures UserRemoved(s, userId).repo == Reference(s.repo, Remove(userId))
  {
    var s' := s.(repo := s.repo.(users := s.repo.users - {userId}));
    forall x | x in s.cache ensures Right(s'.repo, x, dirty, Some(userId)) {
      assert Right(s.repo, x, dirty, None);
    }
    KeysDeletedLeave(s', userId, s.repo.nextId);
    KeysDeletedKeepsCoherent(s', userId, s.repo.nextId, dirty);
    var done := UserRemoved(s, userId);
    forall x | x in done.cache ensures Right(done.repo, x, dirty - {userId}, None) {
      assert Right(done.repo, x, dirty, Some(userId));
    }
    assert done.repo.keys == Reference(s.repo, Remove(userId)).keys;
  }

  lemma ApplyKeepsCoherent(s: State, op: Op, dirty: set<nat>)
    requires CoherentBut(s, dirty, None) && Legal(s.repo, op)
    ensures CoherentBut(Apply(s, op), Dirtied(dirty, op), None) && Apply(s, op).repo == Reference(s.repo, op)
  {
    match op
    case Find(digest) => LookedKeepsCoherent(s, digest, dirty);
    case Generate(user, description, digest) => GeneratedKeepsCoherent(s, user, description, digest, dirty);
    case Update(key) => UpdatedKeepsCoherent(s, key, dirty);
    case Delete(id) =>
      DeletedKeepsCoherent(s, id, dirty, None);
      assert id !in s.repo.keys ==> s.repo.keys - {id} == s.repo.keys;
    case Save(user) => UserSavedKeepsCoherent(s, user, dirty);
    case SaveOnly(user) => SaveOnlyDirties(s, user, dirty);
    case Remove(userId) => UserRemovedKeepsCoherent(s, userId, dirty);
  }

  // ----- main results

  const EMPTY := State(Repository(map[], map[], 0), [])

  function After(ops: seq<Op>): State {
    if ops == [] then EMPTY else Apply(After(ops[..|ops| - 1]), ops[|ops| - 1])
  }

  /** The repositories after the same operations on a service without a cache. */
  function ReferenceAfter(ops: seq<Op>): Repository {
    if ops == [] then EMPTY.repo else Reference(ReferenceAfter(ops[..|ops| - 1]), ops[|ops| - 1])
  }

  /** The users saved without an invalidation since. */
  function Dirty(ops: seq<Op>): set<nat> {
    if ops == [] then {} else Dirtied(Dirty(ops[..|ops| - 1]), ops[|ops| - 1])
  }

  ghost predicate LegalRun(ops: seq<Op>) {
    ops != [] ==> LegalRun(ops[..|ops| - 1]) && Legal(ReferenceAfter(ops[..|ops| - 1]), ops[|ops| - 1])
  }

  lemma AfterOneMore(ops: seq<Op>, op: Op)
    ensures After(ops + [op]) == Apply(After(ops), op)
    ensures ReferenceAfter(ops + [op]) == Reference(ReferenceAfter(ops), op)
    ensures LegalRun(ops + [op]) <==> LegalRun(ops) && Legal(ReferenceAfter(ops), op)
  {
    assert (ops + [op])[..|ops|] == ops;
  }

  lemma {:induction false} RunIsCoherent(ops: seq<Op>)
    requires LegalRun(ops)
    ensures CoherentBut(After(ops), Dirty(ops), None) && After(ops).repo == ReferenceAfter(ops)
  {
    if ops != [] {
      var before := ops[..|ops| - 1];
      RunIsCoherent(before);
      ApplyKeepsCoherent(After(before), ops[|ops| - 1], Dirty(before));
    }
  }

  /** Over any sequence of operations, whatever the cache has evicted, the repositories are those of
      the service without a cache. Every lookup finds the key that service would find, with the user
      it would find, unless that user was saved without an invalidation since. */
  lemma CacheIsInvisible(ops: seq<Op>, digest: string)
    requires LegalRun(ops)
    ensures After(ops).repo == ReferenceAfter(ops)
    ensures var (found, direct) := (Looked(After(ops), digest).1, Direct(ReferenceAfter(ops), digest));
            && (found.Some? <==> direct.Some?)
            && (found.Some? ==> found.value.key == direct.value.key)
            && (found.Some? && found.value.key.userId !in Dirty(ops) ==> found == direct)
  {
    RunIsCoherent(ops);
    LookupIsNearlyDirect(After(ops), digest, Dirty(ops));
  }

  /** Saving a user without the invalidation leaves the cache coherent iff no entry of another version
      of that user is cached. */
  lemma SavedWithoutInvalidation(s: State, user: User)
    requires Coherent(s)
    ensures Coherent(Apply(s, SaveOnly(user))) <==> forall x :: x in s.cache && x.value.user.id == user.id ==> x.value.user == user
  {
    var s' := Apply(s, SaveOnly(user));
    forall x | x in s.cache
      ensures Right(s'.repo, x, {}, None) <==> (x.value.user.id == user.id ==> x.value.user == user)
    {
      assert Right(s.repo, x, {}, None);
    }
  }

  // ----- an update that fails

  /** The cache is written before the repository, so an update whose write fails leaves the two
      agreeing iff there was nothing to write. */
  lemma FailedUpdate(s: State, key: ApiKey)
    requires Coherent(s) && Legal(s.repo, Update(key)) && Direct(s.repo, key.digest).Some?
    ensures Coherent(Updated(s, key, false)) <==> key == s.repo.keys[key.id]
  {
    LookedKeepsCoherent(s, key.digest, {});
    LookupIsDirect(s, key.digest);
    var (t, found) := Looked(s, key.digest);
    FirstKeyIs(s.repo, key.id, s.repo.nextId);
    var slot := Slot(key.digest, Entry(found.value.user, key));
    if key == s.repo.keys[key.id] {
      FoundIsRight(s, key.digest, {});
      AddKeepsCoherent(t, key.digest, slot.value, {});
    } else {
      var more := Without(t.cache, key.digest) + [slot];
      assert slot in Updated(s, key, false).cache by {
        assert more[|more| - 1] == slot;
        assert |more| > CACHE_SIZE ==> more[1..][|more| - 2] == slot;
      }
      assert !Right(t.repo, slot, {}, None);
    }
  }

  /** A failed update after which a lookup answers what was never stored. */
  lemma FailedUpdateIsFound()
    ensures var (user, key) := (User(1, ""), ApiKey(0, 1, "digest", "old", 0));
            var s := State(Repository(map[0 := key], map[1 := user], 1), []);
            var key' := key.(description := "new");
            && Looked(Updated(s, key', false), "digest").1 == Some(Entry(user, key'))
            && Direct(Updated(s, key', false).repo, "digest") == Some(Entry(user, key))
  {
    var user, key := User(1, ""), ApiKey(0, 1, "digest", "old", 0);
    var repo := Repository(map[0 := key], map[1 := user], 1);
    var key' := key.(description := "new");
    assert FirstKey(repo.keys, "digest", 0) == None;
    assert Direct(repo, "digest") == Some(Entry(user, key));
    var slot, slot' := Slot("digest", Entry(user, key)), Slot("digest", Entry(user, key'));
    assert Added([], "digest", Entry(user, key), CACHE_SIZE) == [slot];
    assert [slot][..0] == [] && Without([slot], "digest") == [];
    assert Added([slot], "digest", Entry(user, key'), CACHE_SIZE) == [slot'];
  }
}
