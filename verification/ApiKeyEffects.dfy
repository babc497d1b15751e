/** What a lookup of the API key service (api/apikey/service.go) answers after each of the other
    operations, and what the cache then holds. */
module ApiKeyEffects {
  import opened ApiKeys
  import opened LruCache
  import opened Wrappers

  // ----- what the repositories answer

  /** The repositories answer the key with the digest and its owner; nothing without either. */
  lemma DirectFinds(repo: Repository, digest: string)
    requires Sound(repo)
    ensures forall i :: i in repo.keys && repo.keys[i].digest == digest ==>
              Direct(repo, digest) == if repo.keys[i].userId in repo.users
                                      then Some(Entry(repo.users[repo.keys[i].userId], repo.keys[i])) else None
    ensures (forall i :: i in repo.keys ==> repo.keys[i].digest != digest) ==> Direct(repo, digest) == None
  {
    forall i | i in repo.keys && repo.keys[i].digest == digest
      ensures FirstKey(repo.keys, digest, repo.nextId) == Some(repo.keys[i]) {
      FirstKeyIs(repo, i, repo.nextId);
    }
    FirstKeyMisses(repo.keys, digest, repo.nextId);
  }

  // ----- what is cached

  ghost predicate Newest(cache: seq<Slot<Entry>>, digest: string, e: Entry) {
    cache != [] && cache[|cache| - 1] == Slot(digest, e)
  }

  lemma AddedIsNewest(cache: seq<Slot<Entry>>, digest: string, e: Entry)
    ensures Newest(Added(cache, digest, e, 1024), digest, e)
    ensures Lookup(Added(cache, digest, e, 1024), digest) == Some(e)
  {
    var more := Without(cache, digest) + [Slot(digest, e)];
    assert more[|more| - 1] == Slot(digest, e);
    assert |more| > 1024 ==> more[1..][|more| - 2] == Slot(digest, e);
  }

  /** What a lookup finds is cached then, as the most recent. */
  lemma FoundIsCached(s: State, digest: string, dirty: set<nat>)
    requires CoherentBut(s, dirty, None) && Looked(s, digest).1.Some?
    ensures Newest(Looked(s, digest).0.cache, digest, Looked(s, digest).1.value)
    ensures Looked(s, digest).0.repo == s.repo
  {
    FirstKeyMisses(s.repo.keys, digest, s.repo.nextId);
    if Lookup(s.cache, digest).None? {
      AddedIsNewest(s.cache, digest, Looked(s, digest).1.value);
    }
  }

  /** A lookup that finds nothing leaves everything as it was. */
  lemma MissChangesNothing(s: State, digest: string)
    ensures Looked(s, digest).1.None? ==> Looked(s, digest).0 == s
  {
  }

  // ----- what a lookup answers after each operation

  /** A generated key is found at once, with its owner, under the next free identifier. */
  lemma GeneratedIsFound(s: State, user: User, description: string, digest: string)
    ensures var key := ApiKey(s.repo.nextId, user.id, digest, description, 0);
            var s' := Apply(s, Generate(user, description, digest));
            Newest(s'.cache, digest, Entry(user, key)) && Looked(s', digest).1 == Some(Entry(user, key))
            && s'.repo.keys == s.repo.keys[s.repo.nextId := key] && s'.repo.users == s.repo.users
  {
    AddedIsNewest(s.cache, digest, Entry(user, ApiKey(s.repo.nextId, user.id, digest, description, 0)));
  }

  /** An updated key is found as updated, with the owner that was found before. */
  lemma UpdatedIsFound(s: State, key: ApiKey)
    requires Looked(s, key.digest).1.Some?
    ensures var e := Entry(Looked(s, key.digest).1.value.user, key);
            var s' := Apply(s, Update(key));
            Newest(s'.cache, key.digest, e) && Looked(s', key.digest).1 == Some(e)
            && s'.repo.keys == s.repo.keys[key.id := key] && s'.repo.users == s.repo.users
  {
    var (t, found) := Looked(s, key.digest);
    var e := Entry(found.value.user, key);
    LookupKeepsRepositories(s, key.digest);
    AddedIsNewest(t.cache, key.digest, e);
    CachedIsAnswered(Updated(s, key, true), key.digest, e);
  }

  lemma LookupKeepsRepositories(s: State, digest: string)
    ensures Looked(s, digest).0.repo == s.repo
  {
  }

  lemma CachedIsAnswered(s: State, digest: string, e: Entry)
    requires Lookup(s.cache, digest) == Some(e)
    ensures Looked(s, digest).1 == Some(e)
  {
  }

  /** A deleted key is not found any more, whether it was cached or not. */
  lemma DeletedIsNotFound(s: State, id: nat, dirty: set<nat>)
    requires CoherentBut(s, dirty, None) && id in s.repo.keys
    ensures var s' := Apply(s, Delete(id));
            Looked(s', s.repo.keys[id].digest).1 == None && s'.repo.keys == s.repo.keys - {id} && s'.repo.users == s.repo.users
  {
    var s' := Apply(s, Delete(id));
    DeletedKeepsCoherent(s, id, dirty, None);
    LookupIsNearlyDirect(s', s.repo.keys[id].digest, dirty);
    DirectFinds(s'.repo, s.repo.keys[id].digest);
  }

  /** After a user is saved with the invalidation, each of the user's keys is found with the user as saved. */
  lemma SavedUserIsFound(s: State, user: User, id: nat, dirty: set<nat>)
    requires CoherentBut(s, dirty, None) && id in s.repo.keys && s.repo.keys[id].userId == user.id
    ensures Looked(Apply(s, Save(user)), s.repo.keys[id].digest).1 == Some(Entry(user, s.repo.keys[id]))
  {
    var s' := Apply(s, Save(user));
    UserSavedKeepsCoherent(s, user, dirty);
    LookupIsNearlyDirect(s', s.repo.keys[id].digest, dirty - {user.id});
    DirectFinds(s'.repo, s.repo.keys[id].digest);
  }

  /** A removed user's keys are not found any more, and everyone else's are as they were stored. */
  lemma RemovedUserIsNotFound(s: State, userId: nat, id: nat, dirty: set<nat>)
    requires CoherentBut(s, dirty, None) && id in s.repo.keys
    ensures var s', key := Apply(s, Remove(userId)), s.repo.keys[id];
            if key.userId == userId then Looked(s', key.digest).1 == None && id !in s'.repo.keys
            else id in s'.repo.keys && s'.repo.keys[id] == key && Direct(s'.repo, key.digest) == Direct(s.repo, key.digest)
  {
    var s', digest := Apply(s, Remove(userId)), s.repo.keys[id].digest;
    UserRemovedKeepsCoherent(s, userId, dirty);
    LookupIsNearlyDirect(s', digest, dirty - {userId});
    DirectFinds(s.repo, digest);
    DirectFinds(s'.repo, digest);
  }

  // ----- who may be outdated

  predicate Refreshes(op: Op, userId: nat) {
    op == Remove(userId) || (op.Save? && op.user.id == userId)
  }

  /** A user may be outdated iff saved without the invalidation, and neither saved with it nor removed since. */
  lemma {:induction false} DirtyIff(ops: seq<Op>, userId: nat)
    ensures userId in Dirty(ops) <==>
              exists i :: 0 <= i < |ops| && ops[i].SaveOnly? && ops[i].user.id == userId
                          && forall j :: i < j < |ops| ==> !Refreshes(ops[j], userId)
  {
    if ops != [] {
      var last := |ops| - 1;
      var before := ops[..last];
      DirtyIff(before, userId);
      assert forall i :: 0 <= i < last ==> before[i] == ops[i];
      if userId in Dirty(before) && !Refreshes(ops[last], userId) {
        var i :| 0 <= i < last && before[i].SaveOnly? && before[i].user.id == userId
                 && forall j :: i < j < last ==> !Refreshes(before[j], userId);
        assert ops[i].SaveOnly?;
      }
      if i: nat :| i < last && ops[i].SaveOnly? && ops[i].user.id == userId && forall j :: i < j < |ops| ==> !Refreshes(ops[j], userId) {
        assert before[i].SaveOnly?;
      }
      assert ops[last].SaveOnly? && ops[last].user.id == userId ==> userId in Dirty(ops);
    }
  }
}
