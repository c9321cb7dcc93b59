/**
 * An IAM access key and the two audit predicates on it.
 * Timestamps and durations are integers (seconds); the current time and the two
 * thresholds belong to the key's user and may be unset, as in the source.
 */
module IamKey {
  import opened Wrappers

  /** Lifecycle status of an access key. Only `Inactive` exempts a key from the audit predicates. */
  datatype Status = Active | Inactive

  /** One entry of a `list_access_keys` response. */
  datatype KeyMetadata = KeyMetadata(accessKeyId: string, status: Status, createDate: int)

  /** The `AccessKeyLastUsed` part of a `get_access_key_last_used` response; the date is absent for a never-used key. */
  datatype LastUsedResponse = LastUsedResponse(lastUsedDate: Option<int>)

  /** The comparison inputs a user shares with all its keys: current time, rotation and inactivity thresholds. */
  datatype Criteria = Criteria(now: Option<int>, rotationCriteria: Option<int>, inactiveCriteria: Option<int>)

  /** An access key as audited: `lastUsed` stays `None` until a last-used response has been applied. */
  datatype AccessKey = AccessKey(id: string, status: Status, createDate: int, lastUsed: Option<int>)

  /** The key built from its listing metadata, before any last-used response. */
  function NewKey(metadata: KeyMetadata): AccessKey
  {
    AccessKey(metadata.accessKeyId, metadata.status, metadata.createDate, None)
  }

  /** The key carries exactly the identity, status and creation date of `metadata`. */
  predicate DescribedBy(k: AccessKey, metadata: KeyMetadata)
  {
    k.id == metadata.accessKeyId && k.status == metadata.status && k.createDate == metadata.createDate
  }

  /** The last-used setter: the reported date, or the creation date of a key that was never used. */
  function SetLastUsed(k: AccessKey, details: LastUsedResponse): (k': AccessKey)
    ensures k'.id == k.id && k'.status == k.status && k'.createDate == k.createDate
    ensures k'.lastUsed.Some?
    ensures details.lastUsedDate.Some? ==> k'.lastUsed == details.lastUsedDate
    ensures details.lastUsedDate.None? ==> k'.lastUsed == Some(k.createDate)
  {
    match details.lastUsedDate
    case Some(date) => k.(lastUsed := Some(date))
    case None => k.(lastUsed := Some(k.createDate))
  }

  /** The inputs `stale` asserts before comparing: needed only for a key that is not `Inactive`. */
  predicate StaleDefined(k: AccessKey, c: Criteria)
  {
    k.status == Inactive || (c.now.Some? && c.rotationCriteria.Some?)
  }

  /** The inputs `inactive` asserts before comparing: needed only for a key that is not `Inactive`. */
  predicate InactiveDefined(k: AccessKey, c: Criteria)
  {
    k.status == Inactive || (c.now.Some? && k.lastUsed.Some? && c.inactiveCriteria.Some?)
  }

  /** A key is stale when it is active and older than the rotation threshold. */
  predicate IsStale(k: AccessKey, c: Criteria)
    requires StaleDefined(k, c)
  {
    if k.status == Inactive then false
    else c.now.value - k.createDate > c.rotationCriteria.value
  }

  /** A key is inactive when it is active and unused for longer than the inactivity threshold. */
  predicate IsInactive(k: AccessKey, c: Criteria)
    requires InactiveDefined(k, c)
  {
    if k.status == Inactive then false
    else c.now.value - k.lastUsed.value > c.inactiveCriteria.value
  }

  /** A disabled key is never flagged, whatever its dates and whatever criteria are set. */
  lemma DisabledKeyNeverFlagged(k: AccessKey, c: Criteria)
    requires k.status == Inactive
    ensures StaleDefined(k, c) && !IsStale(k, c)
    ensures InactiveDefined(k, c) && !IsInactive(k, c)
  {
  }

  /** An active key is stale exactly when its age strictly exceeds the rotation threshold. */
  lemma StaleIffOlderThanRotation(k: AccessKey, now: int, rotation: int, inactivity: Option<int>)
    requires k.status == Active
    ensures StaleDefined(k, Criteria(Some(now), Some(rotation), inactivity))
    ensures IsStale(k, Criteria(Some(now), Some(rotation), inactivity)) <==> now - k.createDate > rotation
    ensures now - k.createDate == rotation ==> !IsStale(k, Criteria(Some(now), Some(rotation), inactivity))
  {
  }

  /** An active key with a resolved last-used date is inactive exactly when the time since that date strictly exceeds the threshold. */
  lemma InactiveIffUnusedLongerThanThreshold(k: AccessKey, now: int, rotation: Option<int>, inactivity: int)
    requires k.status == Active && k.lastUsed.Some?
    ensures InactiveDefined(k, Criteria(Some(now), rotation, Some(inactivity)))
    ensures IsInactive(k, Criteria(Some(now), rotation, Some(inactivity))) <==> now - k.lastUsed.value > inactivity
    ensures now - k.lastUsed.value == inactivity ==> !IsInactive(k, Criteria(Some(now), rotation, Some(inactivity)))
  {
  }

  /** An active key whose last use was never resolved cannot be classified as inactive. */
  lemma UnresolvedKeyNotClassifiable(metadata: KeyMetadata, c: Criteria)
    requires metadata.status == Active
    ensures !InactiveDefined(NewKey(metadata), c)
  {
  }

  /** Staleness only looks at the creation date: resolving the last use never changes it. */
  lemma SetLastUsedKeepsStaleness(k: AccessKey, details: LastUsedResponse, c: Criteria)
    requires StaleDefined(k, c)
    ensures StaleDefined(SetLastUsed(k, details), c)
    ensures IsStale(SetLastUsed(k, details), c) == IsStale(k, c)
  {
  }

  /** After resolution the inactive predicate is defined; a never-used key ages from its creation date. */
  lemma NeverUsedKeyAgesFromCreation(k: AccessKey, details: LastUsedResponse, c: Criteria)
    requires k.status == Active && c.now.Some? && c.inactiveCriteria.Some?
    requires details.lastUsedDate.None?
    ensures InactiveDefined(SetLastUsed(k, details), c)
    ensures IsInactive(SetLastUsed(k, details), c) <==> c.now.value - k.createDate > c.inactiveCriteria.value
  {
  }

  /** A second last-used response simply overwrites the first. */
  lemma SetLastUsedOverwrites(k: AccessKey, first: LastUsedResponse, second: LastUsedResponse)
    ensures SetLastUsed(SetLastUsed(k, first), second) == SetLastUsed(k, second)
  {
  }

  /** With the rotation threshold fixed, a stale key stays stale as time moves forward. */
  lemma StaleIsMonotoneInTime(k: AccessKey, c: Criteria, later: int)
    requires c.now.Some? && c.rotationCriteria.Some? && c.now.value <= later
    requires IsStale(k, c)
    ensures IsStale(k, c.(now := Some(later)))
  {
  }

  /** With the inactivity threshold fixed, an inactive key stays inactive as time moves forward. */
  lemma InactiveIsMonotoneInTime(k: AccessKey, c: Criteria, later: int)
    requires c.now.Some? && k.lastUsed.Some? && c.inactiveCriteria.Some? && c.now.value <= later
    requires IsInactive(k, c)
    ensures IsInactive(k, c.(now := Some(later)))
  {
  }

  /** A never-used active key is flagged inactive whenever it is stale and the inactivity threshold does not exceed the rotation threshold. */
  lemma NeverUsedStaleKeyIsInactive(k: AccessKey, c: Criteria)
    requires k.status == Active && k.lastUsed == Some(k.createDate)
    requires c.now.Some? && c.rotationCriteria.Some? && c.inactiveCriteria.Some?
    requires c.inactiveCriteria.value <= c.rotationCriteria.value
    requires IsStale(k, c)
    ensures IsInactive(k, c)
  {
  }

  /** A key created 400 days ago and never used: stale under a 90-day rotation, and inactive under a 30-day threshold once resolved. */
  lemma NeverUsedOldKeyScenario()
    ensures var day := 86400;
            var key := NewKey(KeyMetadata("AKIA1", Active, 0));
            var c := Criteria(Some(400 * day), Some(90 * day), Some(30 * day));
            var resolved := SetLastUsed(key, LastUsedResponse(None));
      && StaleDefined(key, c) && IsStale(key, c)
      && !InactiveDefined(key, c)
      && resolved.lastUsed == Some(0)
      && InactiveDefined(resolved, c) && IsInactive(resolved, c)
  {
  }
}
