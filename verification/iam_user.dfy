/** An IAM user: its name, the audit criteria shared by its keys, and its keys in listing order. */
module IamUser {
  import opened Wrappers
  import opened Sequences
  import opened IamKey

  datatype User = User(id: string, criteria: Criteria, keys: seq<AccessKey>)

  /** A user as first discovered: no keys yet. */
  function NewUser(name: string, criteria: Criteria): User
  {
    User(name, criteria, [])
  }

  /** Builds a key from `metadata`, appends it to the user's keys and returns both. */
  function AddKey(u: User, metadata: KeyMetadata): (r: (User, AccessKey))
    ensures r.0.id == u.id && r.0.criteria == u.criteria
    ensures |r.0.keys| == |u.keys| + 1 && r.0.keys[..|u.keys|] == u.keys
    ensures r.0.keys[|u.keys|] == r.1
    ensures DescribedBy(r.1, metadata) && r.1.lastUsed.None?
  {
    var key := NewKey(metadata);
    (u.(keys := u.keys + [key]), key)
  }

  /** The first key of `u` with id `keyId`, if any. */
  function GetKey(u: User, keyId: string): (r: Option<AccessKey>)
    ensures r.None? <==> forall i :: 0 <= i < |u.keys| ==> u.keys[i].id != keyId
    ensures r.Some? ==> exists i :: 0 <= i < |u.keys| && u.keys[i] == r.value && r.value.id == keyId
                                    && forall j :: 0 <= j < i ==> u.keys[j].id != keyId
  {
    match FirstIndex(u.keys, (k: AccessKey) => k.id == keyId)
    case None => None
    case Some(i) => Some(u.keys[i])
  }

  /** Every key of `u` can be asked whether it is stale. */
  predicate StaleClassifiable(u: User)
  {
    forall i :: 0 <= i < |u.keys| ==> StaleDefined(u.keys[i], u.criteria)
  }

  /** Every key of `u` can be asked whether it is inactive. */
  predicate InactiveClassifiable(u: User)
  {
    forall i :: 0 <= i < |u.keys| ==> InactiveDefined(u.keys[i], u.criteria)
  }

  /** The keys of `u` that are stale, in key order. */
  function StaleKeys(u: User): seq<AccessKey>
    requires StaleClassifiable(u)
  {
    Filter(u.keys, (k: AccessKey) requires StaleDefined(k, u.criteria) => IsStale(k, u.criteria))
  }

  /** The keys of `u` that are inactive, in key order. */
  function InactiveKeys(u: User): seq<AccessKey>
    requires InactiveClassifiable(u)
  {
    Filter(u.keys, (k: AccessKey) requires InactiveDefined(k, u.criteria) => IsInactive(k, u.criteria))
  }

  /** `stale_keys` is exactly the stale part of the keys: nothing else, every occurrence, original order. */
  lemma StaleKeysExact(u: User)
    requires StaleClassifiable(u)
    ensures forall k :: k in StaleKeys(u) ==> k in u.keys && StaleDefined(k, u.criteria) && IsStale(k, u.criteria)
    ensures forall i :: 0 <= i < |u.keys| && IsStale(u.keys[i], u.criteria) ==> u.keys[i] in StaleKeys(u)
    ensures forall k :: k in u.keys ==> multiset(StaleKeys(u))[k] == if IsStale(k, u.criteria) then multiset(u.keys)[k] else 0
    ensures IsSubsequence(StaleKeys(u), u.keys)
  {
    var p := (k: AccessKey) requires StaleDefined(k, u.criteria) => IsStale(k, u.criteria);
    FilterMembers(u.keys, p);
    FilterIsSubsequence(u.keys, p);
    forall k | k in u.keys
      ensures multiset(StaleKeys(u))[k] == if IsStale(k, u.criteria) then multiset(u.keys)[k] else 0
    {
      FilterMultiplicity(u.keys, p, k);
    }
  }

  /** `inactive_keys` is exactly the inactive part of the keys: nothing else, every occurrence, original order. */
  lemma InactiveKeysExact(u: User)
    requires InactiveClassifiable(u)
    ensures forall k :: k in InactiveKeys(u) ==> k in u.keys && InactiveDefined(k, u.criteria) && IsInactive(k, u.criteria)
    ensures forall i :: 0 <= i < |u.keys| && IsInactive(u.keys[i], u.criteria) ==> u.keys[i] in InactiveKeys(u)
    ensures forall k :: k in u.keys ==> multiset(InactiveKeys(u))[k] == if IsInactive(k, u.criteria) then multiset(u.keys)[k] else 0
    ensures IsSubsequence(InactiveKeys(u), u.keys)
  {
    var p := (k: AccessKey) requires InactiveDefined(k, u.criteria) => IsInactive(k, u.criteria);
    FilterMembers(u.keys, p);
    FilterIsSubsequence(u.keys, p);
    forall k | k in u.keys
      ensures multiset(InactiveKeys(u))[k] == if IsInactive(k, u.criteria) then multiset(u.keys)[k] else 0
    {
      FilterMultiplicity(u.keys, p, k);
    }
  }

  /** Adding a key extends `stale_keys` by that key exactly when it is stale. */
  lemma StaleKeysAfterAddKey(u: User, metadata: KeyMetadata)
    requires StaleClassifiable(u) && StaleDefined(NewKey(metadata), u.criteria)
    ensures StaleClassifiable(AddKey(u, metadata).0)
    ensures StaleKeys(AddKey(u, metadata).0)
         == StaleKeys(u) + (if IsStale(NewKey(metadata), u.criteria) then [NewKey(metadata)] else [])
  {
    var key := NewKey(metadata);
    var p := (k: AccessKey) requires StaleDefined(k, u.criteria) => IsStale(k, u.criteria);
    FilterSnoc(u.keys, key, p);
    assert AddKey(u, metadata).0.keys == u.keys + [key];
  }

  /** Lookup after adding a key: an earlier key with the same id still wins; otherwise the new key is found. */
  lemma GetKeyAfterAddKey(u: User, metadata: KeyMetadata, keyId: string)
    ensures GetKey(AddKey(u, metadata).0, keyId)
         == if GetKey(u, keyId).Some? then GetKey(u, keyId)
            else if metadata.accessKeyId == keyId then Some(NewKey(metadata))
            else None
  {
  }
}
