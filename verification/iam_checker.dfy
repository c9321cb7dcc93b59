/**
 * The account-wide access-key walk (`IAMKeyChecker.check`).
 * The remote IAM API is a value: the `list_users` response, and for every user name
 * and key id the response (or error) `list_access_keys` and `get_access_key_last_used`
 * would give. A run returns its verdict, the checker's user list after the walk, and
 * the remote calls it made, in order.
 */
module IamKeyChecker {
  import opened Wrappers
  import opened Sequences
  import opened IamKey
  import opened IamUser

  /** A failed remote call; the error code only selects the log message, so one variant suffices. */
  datatype RemoteError = RemoteError(code: string)

  /** The remote state of the account as the three read-only IAM calls report it. */
  datatype Iam = Iam(
    listUsers: Result<seq<string>, RemoteError>,
    listAccessKeys: string -> Result<seq<KeyMetadata>, RemoteError>,
    getAccessKeyLastUsed: string -> Result<LastUsedResponse, RemoteError>)

  /** One remote call made by the walk. */
  datatype Call = ListUsers | ListAccessKeys(userName: string) | GetAccessKeyLastUsed(accessKeyId: string)

  /** The checker: the criteria handed to each discovered user, and the users gathered so far. */
  datatype Checker = Checker(criteria: Criteria, users: seq<User>)

  /** Result of `check`: whether it succeeded, the checker's users afterwards, and the calls made. */
  datatype Run = Run(ok: bool, users: seq<User>, calls: seq<Call>)

  /** Result of walking one user's keys: success, the user with its keys, and the calls made. */
  datatype KeysPass = KeysPass(ok: bool, user: User, calls: seq<Call>)

  /** Result of walking the listed user names: success, the users appended, and the calls made. */
  datatype UsersPass = UsersPass(ok: bool, added: seq<User>, calls: seq<Call>)

  /** Whether a remote call raised an error. */
  predicate Failed(iam: Iam, call: Call)
  {
    match call
    case ListUsers => iam.listUsers.Failure?
    case ListAccessKeys(name) => iam.listAccessKeys(name).Failure?
    case GetAccessKeyLastUsed(keyId) => iam.getAccessKeyLastUsed(keyId).Failure?
  }

  /** The user filter: no list means every user is checked. */
  predicate Selected(usersToCheck: Option<seq<string>>, name: string)
  {
    usersToCheck.None? || name in usersToCheck.value
  }

  /** The first user of the checker named `userId`, if any. */
  function GetUser(c: Checker, userId: string): (r: Option<User>)
    ensures r.None? <==> forall i :: 0 <= i < |c.users| ==> c.users[i].id != userId
    ensures r.Some? ==> exists i :: 0 <= i < |c.users| && c.users[i] == r.value && r.value.id == userId
                                    && forall j :: 0 <= j < i ==> c.users[j].id != userId
  {
    match FirstIndex(c.users, (u: User) => u.id == userId)
    case None => None
    case Some(i) => Some(c.users[i])
  }

  /**
   * The inner loop of `check`: each key is added to the user; an active key then gets
   * its last-used date when that check is enabled, and a failed lookup ends the walk
   * with the key already added and its last use unresolved.
   */
  function WalkKeys(u: User, metadata: seq<KeyMetadata>, iam: Iam, lastUsedCheck: bool): KeysPass
    decreases |metadata|
  {
    if metadata == [] then KeysPass(true, u, [])
    else
      var (added, key) := AddKey(u, metadata[0]);
      if key.status == Inactive || !lastUsedCheck then
        WalkKeys(added, metadata[1..], iam, lastUsedCheck)
      else
        match iam.getAccessKeyLastUsed(key.id)
        case Failure(_) => KeysPass(false, added, [GetAccessKeyLastUsed(key.id)])
        case Success(details) =>
          var rest := WalkKeys(u.(keys := u.keys + [SetLastUsed(key, details)]), metadata[1..], iam, lastUsedCheck);
          rest.(calls := [GetAccessKeyLastUsed(key.id)] + rest.calls)
  }

  /**
   * The outer loop of `check`: a selected user is appended before its keys are listed;
   * a failed listing or a failed key walk ends the whole walk.
   */
  function WalkUsers(criteria: Criteria, names: seq<string>, iam: Iam, usersToCheck: Option<seq<string>>,
                     lastUsedCheck: bool): UsersPass
    decreases |names|
  {
    if names == [] then UsersPass(true, [], [])
    else if !Selected(usersToCheck, names[0]) then WalkUsers(criteria, names[1..], iam, usersToCheck, lastUsedCheck)
    else
      var user := NewUser(names[0], criteria);
      match iam.listAccessKeys(names[0])
      case Failure(_) => UsersPass(false, [user], [ListAccessKeys(names[0])])
      case Success(metadata) =>
        var keys := WalkKeys(user, metadata, iam, lastUsedCheck);
        if !keys.ok then UsersPass(false, [keys.user], [ListAccessKeys(names[0])] + keys.calls)
        else
          var rest := WalkUsers(criteria, names[1..], iam, usersToCheck, lastUsedCheck);
          UsersPass(rest.ok, [keys.user] + rest.added, [ListAccessKeys(names[0])] + keys.calls + rest.calls)
  }

  /** `check`: list the users, then walk them; the users found are appended to those the checker already holds. */
  function Check(c: Checker, iam: Iam, usersToCheck: Option<seq<string>>, lastUsedCheckEnabled: bool): (r: Run)
    ensures |c.users| <= |r.users| && r.users[..|c.users|] == c.users
    ensures |r.calls| > 0 && r.calls[0] == ListUsers
    ensures iam.listUsers.Failure? ==> !r.ok && r.users == c.users && r.calls == [ListUsers]
  {
    match iam.listUsers
    case Failure(_) => Run(false, c.users, [ListUsers])
    case Success(names) =>
      var pass := WalkUsers(c.criteria, names, iam, usersToCheck, lastUsedCheckEnabled);
      Run(pass.ok, c.users + pass.added, [ListUsers] + pass.calls)
  }

  // ---------------------------------------------------------------------------
  // Reference description of the state a walk leaves behind

  /** The names `check` keeps from a `list_users` response, in response order. */
  function SelectedNames(names: seq<string>, usersToCheck: Option<seq<string>>): seq<string>
  {
    Filter(names, (n: string) => Selected(usersToCheck, n))
  }

  /** A key fully processed from its metadata: resolved when active and the last-used check is on, untouched otherwise. */
  predicate Processed(k: AccessKey, metadata: KeyMetadata, iam: Iam, lastUsedCheck: bool)
  {
    if metadata.status == Active && lastUsedCheck then
      iam.getAccessKeyLastUsed(metadata.accessKeyId).Success?
      && k == SetLastUsed(NewKey(metadata), iam.getAccessKeyLastUsed(metadata.accessKeyId).value)
    else k == NewKey(metadata)
  }

  /** Each key is the processed form of the metadata at the same position. */
  predicate AllProcessed(keys: seq<AccessKey>, metadata: seq<KeyMetadata>, iam: Iam, lastUsedCheck: bool)
  {
    |keys| == |metadata| && forall j :: 0 <= j < |keys| ==> Processed(keys[j], metadata[j], iam, lastUsedCheck)
  }

  /** The keys of a walk stopped by a failed last-used lookup: processed keys, then the added key whose lookup failed. */
  predicate StoppedAtLookup(keys: seq<AccessKey>, metadata: seq<KeyMetadata>, iam: Iam, lastUsedCheck: bool)
  {
    0 < |keys| <= |metadata|
    && AllProcessed(keys[..|keys| - 1], metadata[..|keys| - 1], iam, lastUsedCheck)
    && keys[|keys| - 1] == NewKey(metadata[|keys| - 1])
    && metadata[|keys| - 1].status == Active && lastUsedCheck
    && iam.getAccessKeyLastUsed(metadata[|keys| - 1].accessKeyId).Failure?
  }

  /** A user whose keys were all listed and processed. */
  predicate Complete(u: User, name: string, criteria: Criteria, iam: Iam, lastUsedCheck: bool)
  {
    u.id == name && u.criteria == criteria
    && iam.listAccessKeys(name).Success?
    && AllProcessed(u.keys, iam.listAccessKeys(name).value, iam, lastUsedCheck)
  }

  /** The user on which a walk stopped: no keys if listing them failed, otherwise keys up to the failed lookup. */
  predicate Interrupted(u: User, name: string, criteria: Criteria, iam: Iam, lastUsedCheck: bool)
  {
    u.id == name && u.criteria == criteria
    && match iam.listAccessKeys(name)
       case Failure(_) => u.keys == []
       case Success(metadata) => StoppedAtLookup(u.keys, metadata, iam, lastUsedCheck)
  }

  /** Each user is the complete audit of the name at the same position. */
  predicate AllComplete(users: seq<User>, names: seq<string>, criteria: Criteria, iam: Iam, lastUsedCheck: bool)
  {
    |users| == |names| && forall i :: 0 <= i < |users| ==> Complete(users[i], names[i], criteria, iam, lastUsedCheck)
  }

  /** The users of a walk stopped by a failure: complete users for the first names, then the user it stopped on. */
  predicate StoppedAtUser(users: seq<User>, names: seq<string>, criteria: Criteria, iam: Iam, lastUsedCheck: bool)
  {
    0 < |users| <= |names|
    && AllComplete(users[..|users| - 1], names[..|users| - 1], criteria, iam, lastUsedCheck)
    && Interrupted(users[|users| - 1], names[|users| - 1], criteria, iam, lastUsedCheck)
  }

  /** The last-used lookups made for `keys`: one per active key, in order, and none when the check is off. */
  function LookupCalls(keys: seq<AccessKey>, lastUsedCheck: bool): seq<Call>
  {
    if keys == [] || !lastUsedCheck then []
    else (if keys[0].status == Active then [GetAccessKeyLastUsed(keys[0].id)] else []) + LookupCalls(keys[1..], lastUsedCheck)
  }

  /** The calls made for `users`, in order: each user's key listing followed by the lookups for its keys. */
  function UserCalls(users: seq<User>, lastUsedCheck: bool): seq<Call>
  {
    if users == [] then []
    else [ListAccessKeys(users[0].id)] + LookupCalls(users[0].keys, lastUsedCheck) + UserCalls(users[1..], lastUsedCheck)
  }

  /** No call in `calls` raised an error. */
  predicate NoneFailed(iam: Iam, calls: seq<Call>)
  {
    forall i :: 0 <= i < |calls| ==> !Failed(iam, calls[i])
  }

  /** The walk stopped at its first failure: every call before the last succeeded and the last one failed. */
  predicate FailedLast(iam: Iam, calls: seq<Call>)
  {
    |calls| > 0 && NoneFailed(iam, calls[..|calls| - 1]) && Failed(iam, calls[|calls| - 1])
  }

  // ---------------------------------------------------------------------------
  // Small facts about the reference description

  lemma NoneFailedConcat(iam: Iam, a: seq<Call>, b: seq<Call>)
    ensures NoneFailed(iam, a + b) <==> NoneFailed(iam, a) && NoneFailed(iam, b)
  {
    if NoneFailed(iam, a) && NoneFailed(iam, b) {
      forall i | 0 <= i < |a + b|
        ensures !Failed(iam, (a + b)[i])
      {
        if i >= |a| {
          assert (a + b)[i] == b[i - |a|];
        }
      }
    }
    if NoneFailed(iam, a + b) {
      forall i | 0 <= i < |a|
        ensures !Failed(iam, a[i])
      {
        assert (a + b)[i] == a[i];
      }
      forall i | 0 <= i < |b|
        ensures !Failed(iam, b[i])
      {
        assert (a + b)[|a| + i] == b[i];
      }
    }
  }

  lemma FailedLastAfter(iam: Iam, a: seq<Call>, b: seq<Call>)
    requires NoneFailed(iam, a) && FailedLast(iam, b)
    ensures FailedLast(iam, a + b)
  {
    assert (a + b)[..|a + b| - 1] == a + b[..|b| - 1];
    NoneFailedConcat(iam, a, b[..|b| - 1]);
    assert (a + b)[|a + b| - 1] == b[|b| - 1];
  }

  lemma AllProcessedCons(k: AccessKey, m: KeyMetadata, keys: seq<AccessKey>, metadata: seq<KeyMetadata>,
                         iam: Iam, lastUsedCheck: bool)
    requires Processed(k, m, iam, lastUsedCheck) && AllProcessed(keys, metadata, iam, lastUsedCheck)
    ensures AllProcessed([k] + keys, [m] + metadata, iam, lastUsedCheck)
  {
    forall j | 0 <= j < |keys| + 1
      ensures Processed(([k] + keys)[j], ([m] + metadata)[j], iam, lastUsedCheck)
    {
      if j > 0 {
        assert ([k] + keys)[j] == keys[j - 1];
        assert ([m] + metadata)[j] == metadata[j - 1];
      }
    }
  }

  lemma StoppedAtLookupCons(k: AccessKey, m: KeyMetadata, keys: seq<AccessKey>, metadata: seq<KeyMetadata>,
                            iam: Iam, lastUsedCheck: bool)
    requires Processed(k, m, iam, lastUsedCheck) && StoppedAtLookup(keys, metadata, iam, lastUsedCheck)
    ensures StoppedAtLookup([k] + keys, [m] + metadata, iam, lastUsedCheck)
  {
    var n := |keys| - 1;
    assert ([k] + keys)[..n + 1] == [k] + keys[..n];
    assert ([m] + metadata)[..n + 1] == [m] + metadata[..n];
    AllProcessedCons(k, m, keys[..n], metadata[..n], iam, lastUsedCheck);
    assert ([k] + keys)[n + 1] == keys[n];
    assert ([m] + metadata)[n + 1] == metadata[n];
  }

  lemma LookupCallsCons(k: AccessKey, keys: seq<AccessKey>, lastUsedCheck: bool)
    ensures LookupCalls([k] + keys, lastUsedCheck)
         == (if lastUsedCheck && k.status == Active then [GetAccessKeyLastUsed(k.id)] else [])
            + LookupCalls(keys, lastUsedCheck)
  {
    assert ([k] + keys)[1..] == keys;
  }

  // ---------------------------------------------------------------------------
  // The key walk

  /**
   * Walking a user's keys keeps the keys it already had and appends, in listing order,
   * the processed form of every listed key; a failed lookup stops it right after adding
   * the key whose lookup failed, with that key's last use unresolved.
   */
  lemma {:induction false} WalkKeysShape(u: User, metadata: seq<KeyMetadata>, iam: Iam, lastUsedCheck: bool)
    ensures var r := WalkKeys(u, metadata, iam, lastUsedCheck);
      && r.user.id == u.id && r.user.criteria == u.criteria
      && |u.keys| <= |r.user.keys| && r.user.keys[..|u.keys|] == u.keys
      && (r.ok ==> AllProcessed(r.user.keys[|u.keys|..], metadata, iam, lastUsedCheck))
      && (!r.ok ==> StoppedAtLookup(r.user.keys[|u.keys|..], metadata, iam, lastUsedCheck))
    decreases |metadata|
  {
    var r := WalkKeys(u, metadata, iam, lastUsedCheck);
    if metadata != [] {
      var key := NewKey(metadata[0]);
      if key.status == Inactive || !lastUsedCheck {
        WalkKeysShape(u.(keys := u.keys + [key]), metadata[1..], iam, lastUsedCheck);
        ExtendByOne(u, key, r, metadata, iam, lastUsedCheck);
      } else {
        match iam.getAccessKeyLastUsed(key.id)
        case Failure(_) =>
          assert r.user.keys[|u.keys|..] == [key];
          assert metadata[..0] == [];
        case Success(details) =>
          var resolved := SetLastUsed(key, details);
          WalkKeysShape(u.(keys := u.keys + [resolved]), metadata[1..], iam, lastUsedCheck);
          ExtendByOne(u, resolved, r, metadata, iam, lastUsedCheck);
      }
    }
  }

  /** One step of the key walk: the key added first, followed by what the rest of the walk added. */
  lemma ExtendByOne(u: User, key: AccessKey, rest: KeysPass, metadata: seq<KeyMetadata>, iam: Iam, lastUsedCheck: bool)
    requires metadata != [] && Processed(key, metadata[0], iam, lastUsedCheck)
    requires var base := u.keys + [key];
      && |base| <= |rest.user.keys| && rest.user.keys[..|base|] == base
      && (rest.ok ==> AllProcessed(rest.user.keys[|base|..], metadata[1..], iam, lastUsedCheck))
      && (!rest.ok ==> StoppedAtLookup(rest.user.keys[|base|..], metadata[1..], iam, lastUsedCheck))
    ensures |u.keys| <= |rest.user.keys| && rest.user.keys[..|u.keys|] == u.keys
    ensures rest.ok ==> AllProcessed(rest.user.keys[|u.keys|..], metadata, iam, lastUsedCheck)
    ensures !rest.ok ==> StoppedAtLookup(rest.user.keys[|u.keys|..], metadata, iam, lastUsedCheck)
  {
    var base := u.keys + [key];
    var tail := rest.user.keys[|base|..];
    assert rest.user.keys == base + tail by {
      assert rest.user.keys == rest.user.keys[..|base|] + tail;
    }
    assert rest.user.keys[..|u.keys|] == u.keys;
    assert rest.user.keys[|u.keys|..] == [key] + tail;
    assert metadata == [metadata[0]] + metadata[1..];
    if rest.ok {
      AllProcessedCons(key, metadata[0], tail, metadata[1..], iam, lastUsedCheck);
    } else {
      StoppedAtLookupCons(key, metadata[0], tail, metadata[1..], iam, lastUsedCheck);
    }
  }

  /** The key walk makes exactly one last-used lookup per active key it added, and none when the check is off. */
  lemma {:induction false} WalkKeysCalls(u: User, metadata: seq<KeyMetadata>, iam: Iam, lastUsedCheck: bool)
    ensures var r := WalkKeys(u, metadata, iam, lastUsedCheck);
      && |u.keys| <= |r.user.keys|
      && r.calls == LookupCalls(r.user.keys[|u.keys|..], lastUsedCheck)
    decreases |metadata|, 1
  {
    var r := WalkKeys(u, metadata, iam, lastUsedCheck);
    if metadata != [] {
      var key := NewKey(metadata[0]);
      if key.status == Inactive || !lastUsedCheck {
        CallsStep(u, key, metadata[1..], iam, lastUsedCheck);
      } else {
        match iam.getAccessKeyLastUsed(key.id)
        case Failure(_) =>
          assert r.user.keys[|u.keys|..] == [key];
          LookupCallsCons(key, [], lastUsedCheck);
        case Success(details) =>
          CallsStep(u, SetLastUsed(key, details), metadata[1..], iam, lastUsedCheck);
      }
    }
  }

  /** The calls of the rest of the key walk, seen from before the key `key` was appended. */
  lemma {:induction false} CallsStep(u: User, key: AccessKey, metadata: seq<KeyMetadata>, iam: Iam, lastUsedCheck: bool)
    ensures var rest := WalkKeys(u.(keys := u.keys + [key]), metadata, iam, lastUsedCheck);
      && |u.keys| < |rest.user.keys|
      && (if lastUsedCheck && key.status == Active then [GetAccessKeyLastUsed(key.id)] else []) + rest.calls
         == LookupCalls(rest.user.keys[|u.keys|..], lastUsedCheck)
    decreases |metadata| + 1, 0
  {
    var u' := u.(keys := u.keys + [key]);
    var rest := WalkKeys(u', metadata, iam, lastUsedCheck);
    WalkKeysCalls(u', metadata, iam, lastUsedCheck);
    WalkKeysShape(u', metadata, iam, lastUsedCheck);
    var tail := rest.user.keys[|u'.keys|..];
    assert rest.user.keys[|u.keys|..] == [key] + tail by {
      assert rest.user.keys == rest.user.keys[..|u'.keys|] + tail;
    }
    LookupCallsCons(key, tail, lastUsedCheck);
  }

  /** The key walk succeeds exactly when none of its lookups failed, and a failed walk ends with the failed lookup. */
  lemma {:induction false} WalkKeysVerdict(u: User, metadata: seq<KeyMetadata>, iam: Iam, lastUsedCheck: bool)
    ensures var r := WalkKeys(u, metadata, iam, lastUsedCheck);
      && (r.ok <==> NoneFailed(iam, r.calls))
      && (!r.ok ==> FailedLast(iam, r.calls))
    decreases |metadata|
  {
    var r := WalkKeys(u, metadata, iam, lastUsedCheck);
    if metadata != [] {
      var key := NewKey(metadata[0]);
      if key.status == Inactive || !lastUsedCheck {
        WalkKeysVerdict(u.(keys := u.keys + [key]), metadata[1..], iam, lastUsedCheck);
      } else {
        var lookup := [GetAccessKeyLastUsed(key.id)];
        match iam.getAccessKeyLastUsed(key.id)
        case Failure(_) =>
          assert r.calls[..0] == [];
          assert Failed(iam, r.calls[0]);
        case Success(details) =>
          var u' := u.(keys := u.keys + [SetLastUsed(key, details)]);
          var rest := WalkKeys(u', metadata[1..], iam, lastUsedCheck);
          WalkKeysVerdict(u', metadata[1..], iam, lastUsedCheck);
          assert r.calls == lookup + rest.calls;
          NoneFailedConcat(iam, lookup, rest.calls);
          if !r.ok {
            FailedLastAfter(iam, lookup, rest.calls);
          }
      }
    }
  }

  // ---------------------------------------------------------------------------
  // The user walk

  lemma SelectedNamesCons(names: seq<string>, usersToCheck: Option<seq<string>>)
    requires names != []
    ensures SelectedNames(names, usersToCheck)
         == (if Selected(usersToCheck, names[0]) then [names[0]] else []) + SelectedNames(names[1..], usersToCheck)
  {
  }

  lemma AllCompleteCons(u: User, name: string, users: seq<User>, names: seq<string>, criteria: Criteria, iam: Iam,
                        lastUsedCheck: bool)
    requires Complete(u, name, criteria, iam, lastUsedCheck) && AllComplete(users, names, criteria, iam, lastUsedCheck)
    ensures AllComplete([u] + users, [name] + names, criteria, iam, lastUsedCheck)
  {
    forall i | 0 <= i < |users| + 1
      ensures Complete(([u] + users)[i], ([name] + names)[i], criteria, iam, lastUsedCheck)
    {
      if i > 0 {
        assert ([u] + users)[i] == users[i - 1];
        assert ([name] + names)[i] == names[i - 1];
      }
    }
  }

  lemma StoppedAtUserCons(u: User, name: string, users: seq<User>, names: seq<string>, criteria: Criteria, iam: Iam,
                          lastUsedCheck: bool)
    requires Complete(u, name, criteria, iam, lastUsedCheck) && StoppedAtUser(users, names, criteria, iam, lastUsedCheck)
    ensures StoppedAtUser([u] + users, [name] + names, criteria, iam, lastUsedCheck)
  {
    var n := |users| - 1;
    assert ([u] + users)[..n + 1] == [u] + users[..n];
    assert ([name] + names)[..n + 1] == [name] + names[..n];
    AllCompleteCons(u, name, users[..n], names[..n], criteria, iam, lastUsedCheck);
    assert ([u] + users)[n + 1] == users[n];
    assert ([name] + names)[n + 1] == names[n];
  }

  /** Walking one selected user's keys from a fresh user yields a complete user, or the user the walk stopped on. */
  lemma AuditOneUser(name: string, criteria: Criteria, metadata: seq<KeyMetadata>, iam: Iam, lastUsedCheck: bool)
    requires iam.listAccessKeys(name) == Success(metadata)
    ensures var r := WalkKeys(NewUser(name, criteria), metadata, iam, lastUsedCheck);
      && (r.ok ==> Complete(r.user, name, criteria, iam, lastUsedCheck))
      && (!r.ok ==> Interrupted(r.user, name, criteria, iam, lastUsedCheck))
      && r.calls == LookupCalls(r.user.keys, lastUsedCheck)
  {
    var r := WalkKeys(NewUser(name, criteria), metadata, iam, lastUsedCheck);
    WalkKeysShape(NewUser(name, criteria), metadata, iam, lastUsedCheck);
    WalkKeysCalls(NewUser(name, criteria), metadata, iam, lastUsedCheck);
    assert r.user.keys[0..] == r.user.keys;
  }

  /**
   * Walking the listed names appends, in order, one user per selected name: all complete
   * when the walk succeeds; otherwise complete users followed by the user it stopped on,
   * and nothing for the selected names after it.
   */
  lemma {:induction false} WalkUsersShape(criteria: Criteria, names: seq<string>, iam: Iam,
                                          usersToCheck: Option<seq<string>>, lastUsedCheck: bool)
    ensures var p := WalkUsers(criteria, names, iam, usersToCheck, lastUsedCheck);
            var selected := SelectedNames(names, usersToCheck);
      && (p.ok ==> AllComplete(p.added, selected, criteria, iam, lastUsedCheck))
      && (!p.ok ==> StoppedAtUser(p.added, selected, criteria, iam, lastUsedCheck))
    decreases |names|
  {
    var p := WalkUsers(criteria, names, iam, usersToCheck, lastUsedCheck);
    if names != [] {
      var name := names[0];
      SelectedNamesCons(names, usersToCheck);
      var selected := SelectedNames(names, usersToCheck);
      var later := SelectedNames(names[1..], usersToCheck);
      WalkUsersShape(criteria, names[1..], iam, usersToCheck, lastUsedCheck);
      if Selected(usersToCheck, name) {
        assert selected == [name] + later;
        match iam.listAccessKeys(name)
        case Failure(_) =>
          assert p.added[..0] == [] && selected[..0] == [];
        case Success(metadata) =>
          var keys := WalkKeys(NewUser(name, criteria), metadata, iam, lastUsedCheck);
          AuditOneUser(name, criteria, metadata, iam, lastUsedCheck);
          if !keys.ok {
            assert p.added[..0] == [] && selected[..0] == [];
          } else {
            var rest := WalkUsers(criteria, names[1..], iam, usersToCheck, lastUsedCheck);
            if rest.ok {
              AllCompleteCons(keys.user, name, rest.added, later, criteria, iam, lastUsedCheck);
            } else {
              StoppedAtUserCons(keys.user, name, rest.added, later, criteria, iam, lastUsedCheck);
            }
          }
      }
    }
  }

  /** The calls of the user walk are, per appended user, its key listing followed by the lookups for its keys. */
  lemma {:induction false} WalkUsersCalls(criteria: Criteria, names: seq<string>, iam: Iam,
                                          usersToCheck: Option<seq<string>>, lastUsedCheck: bool)
    ensures var p := WalkUsers(criteria, names, iam, usersToCheck, lastUsedCheck);
      p.calls == UserCalls(p.added, lastUsedCheck)
    decreases |names|
  {
    var p := WalkUsers(criteria, names, iam, usersToCheck, lastUsedCheck);
    if names != [] {
      var name := names[0];
      WalkUsersCalls(criteria, names[1..], iam, usersToCheck, lastUsedCheck);
      if Selected(usersToCheck, name) {
        match iam.listAccessKeys(name)
        case Failure(_) =>
          assert p.added[1..] == [];
        case Success(metadata) =>
          var keys := WalkKeys(NewUser(name, criteria), metadata, iam, lastUsedCheck);
          AuditOneUser(name, criteria, metadata, iam, lastUsedCheck);
          if keys.ok {
            var rest := WalkUsers(criteria, names[1..], iam, usersToCheck, lastUsedCheck);
            assert p.added[1..] == rest.added;
          } else {
            assert p.added[1..] == [];
          }
      }
    }
  }

  /** The user walk succeeds exactly when none of its calls failed, and a failed walk ends with the failed call. */
  lemma {:induction false} WalkUsersVerdict(criteria: Criteria, names: seq<string>, iam: Iam,
                                            usersToCheck: Option<seq<string>>, lastUsedCheck: bool)
    ensures var p := WalkUsers(criteria, names, iam, usersToCheck, lastUsedCheck);
      && (p.ok <==> NoneFailed(iam, p.calls))
      && (!p.ok ==> FailedLast(iam, p.calls))
    decreases |names|
  {
    var p := WalkUsers(criteria, names, iam, usersToCheck, lastUsedCheck);
    if names != [] {
      var name := names[0];
      WalkUsersVerdict(criteria, names[1..], iam, usersToCheck, lastUsedCheck);
      if Selected(usersToCheck, name) {
        var listing := [ListAccessKeys(name)];
        match iam.listAccessKeys(name)
        case Failure(_) =>
          assert p.calls[..0] == [];
          assert Failed(iam, p.calls[0]);
        case Success(metadata) =>
          var keys := WalkKeys(NewUser(name, criteria), metadata, iam, lastUsedCheck);
          WalkKeysVerdict(NewUser(name, criteria), metadata, iam, lastUsedCheck);
          assert NoneFailed(iam, listing);
          NoneFailedConcat(iam, listing, keys.calls);
          if !keys.ok {
            FailedLastAfter(iam, listing, keys.calls);
          } else {
            var rest := WalkUsers(criteria, names[1..], iam, usersToCheck, lastUsedCheck);
            assert p.calls == (listing + keys.calls) + rest.calls;
            NoneFailedConcat(iam, listing + keys.calls, rest.calls);
            if !rest.ok {
              FailedLastAfter(iam, listing + keys.calls, rest.calls);
            }
          }
      }
    }
  }

  // ---------------------------------------------------------------------------
  // Which calls a walk can make

  /** A last-used lookup is only ever made, with the check on, for an active key among `keys`. */
  lemma {:induction false} LookupCallsMembers(keys: seq<AccessKey>, lastUsedCheck: bool)
    ensures forall call :: call in LookupCalls(keys, lastUsedCheck) ==>
      call.GetAccessKeyLastUsed? && lastUsedCheck
      && exists k :: k in keys && k.id == call.accessKeyId && k.status == Active
  {
    if keys != [] && lastUsedCheck {
      LookupCallsMembers(keys[1..], lastUsedCheck);
      assert forall k :: k in keys[1..] ==> k in keys;
    }
  }

  /** Every key listing in the calls of `users` names one of them; every lookup is for an active key of one of them. */
  lemma {:induction false} UserCallsMembers(users: seq<User>, lastUsedCheck: bool)
    ensures forall call :: call in UserCalls(users, lastUsedCheck) ==>
      (call.ListAccessKeys? && exists u :: u in users && u.id == call.userName)
      || (call.GetAccessKeyLastUsed? && lastUsedCheck
          && exists u, k :: u in users && k in u.keys && k.id == call.accessKeyId && k.status == Active)
  {
    if users != [] {
      UserCallsMembers(users[1..], lastUsedCheck);
      LookupCallsMembers(users[0].keys, lastUsedCheck);
      assert forall u :: u in users[1..] ==> u in users;
      assert users[0] in users;
    }
  }

  // ---------------------------------------------------------------------------
  // Properties of `check`

  /**
   * The calls `check` makes: it lists the users, then for each user it appended, in order,
   * lists that user's keys and looks up the last use of each of its active keys, the lookups
   * happening only when the last-used check is enabled.
   */
  lemma CheckCallTrace(c: Checker, iam: Iam, usersToCheck: Option<seq<string>>, lastUsedCheckEnabled: bool)
    ensures var r := Check(c, iam, usersToCheck, lastUsedCheckEnabled);
      r.calls == [ListUsers] + UserCalls(r.users[|c.users|..], lastUsedCheckEnabled)
  {
    var r := Check(c, iam, usersToCheck, lastUsedCheckEnabled);
    match iam.listUsers
    case Failure(_) =>
      assert r.users[|c.users|..] == [];
    case Success(names) =>
      var pass := WalkUsers(c.criteria, names, iam, usersToCheck, lastUsedCheckEnabled);
      WalkUsersCalls(c.criteria, names, iam, usersToCheck, lastUsedCheckEnabled);
      assert r.users[|c.users|..] == pass.added;
  }

  /** `check` returns true exactly when no remote call failed; when it returns false, the failed call was its last. */
  lemma CheckVerdict(c: Checker, iam: Iam, usersToCheck: Option<seq<string>>, lastUsedCheckEnabled: bool)
    ensures var r := Check(c, iam, usersToCheck, lastUsedCheckEnabled);
      && (r.ok <==> NoneFailed(iam, r.calls))
      && (!r.ok ==> FailedLast(iam, r.calls))
  {
    var r := Check(c, iam, usersToCheck, lastUsedCheckEnabled);
    match iam.listUsers
    case Failure(_) =>
      assert Failed(iam, r.calls[0]);
      assert r.calls[..0] == [];
    case Success(names) =>
      var pass := WalkUsers(c.criteria, names, iam, usersToCheck, lastUsedCheckEnabled);
      WalkUsersVerdict(c.criteria, names, iam, usersToCheck, lastUsedCheckEnabled);
      assert NoneFailed(iam, [ListUsers]);
      NoneFailedConcat(iam, [ListUsers], pass.calls);
      if !pass.ok {
        FailedLastAfter(iam, [ListUsers], pass.calls);
      }
  }

  /**
   * A successful `check` appended, after the users the checker already held, one complete
   * user per selected name of the `list_users` response, in response order.
   */
  lemma CheckSuccessIsComplete(c: Checker, iam: Iam, usersToCheck: Option<seq<string>>, lastUsedCheckEnabled: bool)
    ensures var r := Check(c, iam, usersToCheck, lastUsedCheckEnabled);
      r.ok ==> iam.listUsers.Success?
               && AllComplete(r.users[|c.users|..], SelectedNames(iam.listUsers.value, usersToCheck),
                              c.criteria, iam, lastUsedCheckEnabled)
  {
    var r := Check(c, iam, usersToCheck, lastUsedCheckEnabled);
    if iam.listUsers.Success? {
      var names := iam.listUsers.value;
      WalkUsersShape(c.criteria, names, iam, usersToCheck, lastUsedCheckEnabled);
      assert r.users[|c.users|..] == WalkUsers(c.criteria, names, iam, usersToCheck, lastUsedCheckEnabled).added;
    }
  }

  /**
   * A failed `check` whose user listing succeeded keeps what it gathered: complete users for
   * the first selected names, then the user it stopped on (no keys if listing them failed, or
   * keys up to the one whose lookup failed), and no user for any later selected name.
   */
  lemma CheckFailureKeepsPartialState(c: Checker, iam: Iam, usersToCheck: Option<seq<string>>, lastUsedCheckEnabled: bool)
    requires iam.listUsers.Success?
    ensures var r := Check(c, iam, usersToCheck, lastUsedCheckEnabled);
      !r.ok ==> StoppedAtUser(r.users[|c.users|..], SelectedNames(iam.listUsers.value, usersToCheck),
                              c.criteria, iam, lastUsedCheckEnabled)
  {
    var r := Check(c, iam, usersToCheck, lastUsedCheckEnabled);
    var names := iam.listUsers.value;
    WalkUsersShape(c.criteria, names, iam, usersToCheck, lastUsedCheckEnabled);
    assert r.users[|c.users|..] == WalkUsers(c.criteria, names, iam, usersToCheck, lastUsedCheckEnabled).added;
  }

  /** Users outside `usersToCheck` are never appended and their keys are never listed. */
  lemma CheckOnlyTouchesSelectedUsers(c: Checker, iam: Iam, usersToCheck: Option<seq<string>>, lastUsedCheckEnabled: bool)
    ensures var r := Check(c, iam, usersToCheck, lastUsedCheckEnabled);
      && (forall i :: |c.users| <= i < |r.users| ==> Selected(usersToCheck, r.users[i].id))
      && (forall i :: 0 <= i < |r.calls| && r.calls[i].ListAccessKeys? ==> Selected(usersToCheck, r.calls[i].userName))
  {
    var r := Check(c, iam, usersToCheck, lastUsedCheckEnabled);
    var added := r.users[|c.users|..];
    assert forall i :: |c.users| <= i < |r.users| ==> r.users[i] == added[i - |c.users|];
    assert forall u :: u in added ==> Selected(usersToCheck, u.id) by {
      if iam.listUsers.Success? {
        var selected := SelectedNames(iam.listUsers.value, usersToCheck);
        FilterMembers(iam.listUsers.value, (n: string) => Selected(usersToCheck, n));
        CheckSuccessIsComplete(c, iam, usersToCheck, lastUsedCheckEnabled);
        CheckFailureKeepsPartialState(c, iam, usersToCheck, lastUsedCheckEnabled);
        forall u | u in added
          ensures Selected(usersToCheck, u.id)
        {
          var i :| 0 <= i < |added| && added[i] == u;
          if r.ok || i < |added| - 1 {
            assert (if r.ok then added else added[..|added| - 1])[i] == u;
          }
          assert u.id == selected[i];
          assert selected[i] in selected;
        }
      } else {
        assert added == [];
      }
    }
    CheckCallTrace(c, iam, usersToCheck, lastUsedCheckEnabled);
    UserCallsMembers(added, lastUsedCheckEnabled);
    forall i | 0 <= i < |r.calls| && r.calls[i].ListAccessKeys?
      ensures Selected(usersToCheck, r.calls[i].userName)
    {
      if i > 0 {
        assert r.calls[i] == UserCalls(added, lastUsedCheckEnabled)[i - 1];
      }
    }
  }

  /** Last-used data is only fetched with the check enabled, and only for active keys of users `check` appended. */
  lemma CheckLooksUpOnlyActiveKeys(c: Checker, iam: Iam, usersToCheck: Option<seq<string>>, lastUsedCheckEnabled: bool)
    ensures var r := Check(c, iam, usersToCheck, lastUsedCheckEnabled);
      forall i :: 0 <= i < |r.calls| && r.calls[i].GetAccessKeyLastUsed? ==>
        lastUsedCheckEnabled
        && exists u, k :: u in r.users[|c.users|..] && k in u.keys
                          && k.id == r.calls[i].accessKeyId && k.status == Active
  {
    var r := Check(c, iam, usersToCheck, lastUsedCheckEnabled);
    var added := r.users[|c.users|..];
    CheckCallTrace(c, iam, usersToCheck, lastUsedCheckEnabled);
    UserCallsMembers(added, lastUsedCheckEnabled);
    forall i | 0 <= i < |r.calls| && r.calls[i].GetAccessKeyLastUsed?
      ensures lastUsedCheckEnabled
      ensures exists u, k :: u in added && k in u.keys && k.id == r.calls[i].accessKeyId && k.status == Active
    {
      assert r.calls[i] == UserCalls(added, lastUsedCheckEnabled)[i - 1];
    }
  }

  // ---------------------------------------------------------------------------
  // What the gathered users can be asked

  /** A complete user's keys carry the listed ids, statuses and creation dates; last use is resolved exactly for active keys when the check is on. */
  lemma CompleteUserKeys(u: User, name: string, criteria: Criteria, iam: Iam, lastUsedCheck: bool)
    requires Complete(u, name, criteria, iam, lastUsedCheck)
    ensures forall j :: 0 <= j < |u.keys| ==>
      DescribedBy(u.keys[j], iam.listAccessKeys(name).value[j])
      && (u.keys[j].lastUsed.Some? <==> u.keys[j].status == Active && lastUsedCheck)
  {
    var metadata := iam.listAccessKeys(name).value;
    forall j | 0 <= j < |u.keys|
      ensures DescribedBy(u.keys[j], metadata[j])
      ensures u.keys[j].lastUsed.Some? <==> u.keys[j].status == Active && lastUsedCheck
    {
      assert Processed(u.keys[j], metadata[j], iam, lastUsedCheck);
    }
  }

  /** After a run with the last-used check on, every complete user can be asked for its inactive keys once the time and threshold are set. */
  lemma CompleteUserInactiveClassifiable(u: User, name: string, iam: Iam)
    requires Complete(u, name, u.criteria, iam, true)
    requires u.criteria.now.Some? && u.criteria.inactiveCriteria.Some?
    ensures InactiveClassifiable(u)
  {
    CompleteUserKeys(u, name, u.criteria, iam, true);
  }

  /** Without the last-used check, a complete user with an active key cannot be asked for its inactive keys. */
  lemma CompleteUserWithoutLookupNotInactiveClassifiable(u: User, name: string, iam: Iam, j: nat)
    requires Complete(u, name, u.criteria, iam, false)
    requires j < |u.keys| && u.keys[j].status == Active
    ensures !InactiveClassifiable(u)
  {
    CompleteUserKeys(u, name, u.criteria, iam, false);
    assert !InactiveDefined(u.keys[j], u.criteria);
  }

  // ---------------------------------------------------------------------------
  // Two concrete runs

  /** Filtering to "alice" in an account of "alice" and "bob" keeps only alice and never lists bob's keys. */
  lemma FilterScenario(criteria: Criteria)
    ensures var iam := Iam(Success(["alice", "bob"]), (n: string) => Success([]), (id: string) => Success(LastUsedResponse(None)));
            var r := Check(Checker(criteria, []), iam, Some(["alice"]), true);
      && r.ok
      && r.users == [User("alice", criteria, [])]
      && r.calls == [ListUsers, ListAccessKeys("alice")]
  {
    assert "bob" !in ["alice"];
  }

  /** A key-listing failure on the second of three users: the first is complete, the second present without keys, the third absent. */
  lemma SecondUserFailsScenario(criteria: Criteria)
    ensures var key := KeyMetadata("AKIA1", Inactive, 0);
            var iam := Iam(Success(["u1", "u2", "u3"]),
                           (n: string) => if n == "u2" then Failure(RemoteError("AccessDenied")) else Success([key]),
                           (id: string) => Success(LastUsedResponse(None)));
            var r := Check(Checker(criteria, []), iam, None, true);
      && !r.ok
      && r.users == [User("u1", criteria, [NewKey(key)]), User("u2", criteria, [])]
      && r.calls == [ListUsers, ListAccessKeys("u1"), ListAccessKeys("u2")]
  {
  }
}
