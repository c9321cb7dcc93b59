# IAM access-key audit, modelled in Dafny

This project models the access-key audit of the Hammer security tooling (`hammer/library/aws/iam.py`):

- an **IAM access key** (`IAMKey`): id, status, create date and a last-used date that stays unset until a
  `get_access_key_last_used` response is applied to it; and the two audit predicates. A key is **stale** when it is
  active and older than the rotation threshold. It is **inactive** when it is active and unused for longer than the
  inactivity threshold;
- an **IAM user** (`User`): its name, the current time and the two thresholds shared by its keys, and its keys in
  listing order, with `add_key`, `get_key`, `stale_keys` and `inactive_keys`;
- the **checker** (`IAMKeyChecker`): `get_user` and the `check` walk. `check` lists the users, keeps those named in
  the optional `users_to_check` list, and appends each kept user before listing its keys. It looks up last-used data
  for active keys when that check is enabled. It returns `False` at the first failed remote call and keeps whatever
  it had gathered by then.

Modelling choices:

- Timestamps and durations are integers (seconds). The current time and both thresholds are `Option<int>`, because
  the source defaults them to `None`.
- The source's `assert ... is not None` checks in `stale` and `inactive` are preconditions
  (`IamKey.StaleDefined`, `IamKey.InactiveDefined`).
- The remote IAM API is a value (`IamKeyChecker.Iam`) with three parts:
  - the `list_users` result;
  - for every user name, the `list_access_keys` result;
  - for every key id, the `get_access_key_last_used` result.
- Each result is a response or a `RemoteError`.
- `IamKeyChecker.Check` is a pure function. It returns `Run(ok, users, calls)`:
  - `ok` is the returned boolean;
  - `users` is the checker's `users` list after the call;
  - `calls` is the sequence of remote calls made, so "never listed" and "only looked up when ..." can be stated.
- In the source, `add_key` appends a key object, and `key.last_used = ...` then updates it in place. The model
  appends the key with its last-used date already resolved. The final state is the same. When the lookup fails, the
  appended key is the fresh key, with last use unset.
- The core reuses these helpers:
  - `Sequences.FirstIndex`, a first-match scan used by `get_key` and `get_user`;
  - `Sequences.Filter`, an order-preserving comprehension used by `stale_keys` and `inactive_keys`.

Two behaviours of the code that the model keeps as they are:

- `check` does not de-duplicate users. A name listed twice by `list_users`, or a second `check` on the same checker,
  appends the user again. `Check` does the same: it appends to the users the checker already holds, one user per kept
  name occurrence.
- `inactive` relies on `None` plus an assertion for a key whose last use was never resolved. `IsInactive` keeps this
  as a precondition on a resolved date. `IamKeyChecker.CompleteUserWithoutLookupNotInactiveClassifiable` shows that,
  after a run with the last-used check off, the precondition cannot be met for a user with at least one active key.

## Model

| member | source | states |
|---|---|---|
| IamKey.SetLastUsed | hammer/library/aws/iam.py:130-142 | the last-used date becomes the response's `LastUsedDate` when present and the key's create date otherwise; id, status and create date are untouched |
| IamKey.DisabledKeyNeverFlagged | hammer/library/aws/iam.py:144-167 | a key whose status is `Inactive` is neither stale nor inactive, for any dates and any (even unset) criteria |
| IamKey.StaleIffOlderThanRotation | hammer/library/aws/iam.py:150-154 | an active key is stale iff now minus create date is strictly greater than the rotation threshold; age equal to the threshold is not stale |
| IamKey.InactiveIffUnusedLongerThanThreshold | hammer/library/aws/iam.py:162-167 | an active key with a resolved last use is inactive iff now minus last use is strictly greater than the inactivity threshold; equality is not inactive |
| IamKey.UnresolvedKeyNotClassifiable | hammer/library/aws/iam.py:110-116 | a freshly built active key has no last-used date, so the inactive predicate's precondition fails for it |
| IamKey.SetLastUsedKeepsStaleness | hammer/library/aws/iam.py:138-154 | resolving the last use never changes whether a key is stale |
| IamKey.NeverUsedKeyAgesFromCreation | hammer/library/aws/iam.py:138-142 | after a response without `LastUsedDate`, an active key is inactive iff its age since creation exceeds the inactivity threshold |
| IamKey.SetLastUsedOverwrites | hammer/library/aws/iam.py:130-142 | applying a second last-used response gives the same key as applying only the second |
| IamKey.StaleIsMonotoneInTime | hammer/library/aws/iam.py:154 | with the rotation threshold fixed, a stale key remains stale at any later current time |
| IamKey.InactiveIsMonotoneInTime | hammer/library/aws/iam.py:167 | with the inactivity threshold fixed, an inactive key remains inactive at any later current time |
| IamKey.NeverUsedStaleKeyIsInactive | hammer/library/aws/iam.py:138-167 | a never-used active key that is stale is also inactive whenever the inactivity threshold is at most the rotation threshold |
| IamKey.NeverUsedOldKeyScenario | hammer/library/aws/iam.py:138-167 | a key created 400 days ago is stale under a 90-day rotation threshold, cannot be asked `inactive` before resolution, and once resolved from an empty response is inactive under a 30-day threshold |
| IamUser.AddKey | hammer/library/aws/iam.py:66-76 | exactly one key is appended at the end, earlier keys are unchanged, and the returned key is the appended one, built from the metadata with no last use |
| IamUser.GetKey | hammer/library/aws/iam.py:78-85 | the result is none iff no key has the id; otherwise it is the key at the first position whose id matches |
| IamUser.StaleKeysExact | hammer/library/aws/iam.py:87-90 | `stale_keys` holds only stale keys of the user, every stale key with its full multiplicity, in key order (a subsequence of the keys) |
| IamUser.InactiveKeysExact | hammer/library/aws/iam.py:92-95 | `inactive_keys` holds only inactive keys of the user, every inactive key with its full multiplicity, in key order |
| IamUser.StaleKeysAfterAddKey | hammer/library/aws/iam.py:66-90 | adding a key extends `stale_keys` by exactly that key when it is stale and leaves it unchanged otherwise |
| IamUser.GetKeyAfterAddKey | hammer/library/aws/iam.py:66-85 | after `add_key`, lookup still returns an earlier key with the same id; otherwise it finds the new key iff its id matches |
| IamKeyChecker.GetUser | hammer/library/aws/iam.py:196-203 | the result is none iff no gathered user has the name; otherwise it is the first gathered user with that name |
| IamKeyChecker.Check | hammer/library/aws/iam.py:217-238 | users already held are never changed, the first call is always `list_users`, and a failed `list_users` returns false with the users unchanged and no other call made |
| IamKeyChecker.WalkKeysShape | hammer/library/aws/iam.py:252-267 | the key loop keeps earlier keys and appends one processed key per listed key; a failed lookup stops it right after appending that key with its last use unset |
| IamKeyChecker.WalkKeysCalls | hammer/library/aws/iam.py:252-260 | the key loop makes one last-used lookup per active key it appended, in order, and none when the check is disabled |
| IamKeyChecker.WalkKeysVerdict | hammer/library/aws/iam.py:259-268 | the key loop succeeds iff none of its lookups failed; when it fails, the failed lookup is its last call |
| IamKeyChecker.WalkUsersShape | hammer/library/aws/iam.py:229-268 | the user loop appends one user per kept name in order; all complete on success, otherwise complete users then the user it stopped on, and none for later names |
| IamKeyChecker.WalkUsersCalls | hammer/library/aws/iam.py:229-260 | the user loop's calls are, per appended user, its key listing followed by the lookups for its active keys |
| IamKeyChecker.WalkUsersVerdict | hammer/library/aws/iam.py:238-268 | the user loop succeeds iff none of its calls failed; when it fails, the failed call is its last |
| IamKeyChecker.CheckCallTrace | hammer/library/aws/iam.py:217-268 | `check` calls `list_users`, then for each appended user in order `list_access_keys` and one lookup per active key when the check is enabled; nothing else |
| IamKeyChecker.CheckVerdict | hammer/library/aws/iam.py:217-268 | `check` returns true iff no remote call failed; on false the failed call was the last one made (abort on first failure) |
| IamKeyChecker.CheckSuccessIsComplete | hammer/library/aws/iam.py:229-268 | after a successful `check` the appended users are exactly the kept names in response order, each with all listed keys processed |
| IamKeyChecker.CheckFailureKeepsPartialState | hammer/library/aws/iam.py:234-267 | after a failed `check` whose user listing succeeded, the appended users are complete users for the first kept names, then the user it stopped on (no keys, or keys up to the failed lookup), and none for later names |
| IamKeyChecker.CheckOnlyTouchesSelectedUsers | hammer/library/aws/iam.py:229-242 | a user not in `users_to_check` is never appended and its keys are never listed |
| IamKeyChecker.CheckLooksUpOnlyActiveKeys | hammer/library/aws/iam.py:252-260 | a last-used lookup happens only with the check enabled and only for an active key of an appended user |
| IamKeyChecker.CompleteUserKeys | hammer/library/aws/iam.py:252-260 | a complete user's keys carry the listed ids, statuses and create dates, and have a last-used date iff active and the check was enabled |
| IamKeyChecker.CompleteUserInactiveClassifiable | hammer/library/aws/iam.py:156-167 | after a run with the last-used check on, `inactive_keys` can be asked of every complete user once the time and threshold are set |
| IamKeyChecker.CompleteUserWithoutLookupNotInactiveClassifiable | hammer/library/aws/iam.py:254-257 | after a run with the last-used check off, a complete user with an active key cannot be asked `inactive_keys` |
| IamKeyChecker.FilterScenario | hammer/library/aws/iam.py:229-232 | with `users_to_check = ["alice"]` and users alice and bob, only alice is appended and bob's keys are never listed |
| IamKeyChecker.SecondUserFailsScenario | hammer/library/aws/iam.py:238-249 | when listing keys fails for the second of three users, `check` returns false with the first user complete, the second present without keys, and the third absent |

## Left out

- `IAMOperations.update_access_key`, `IAMOperations.disable_access_key` and `IAMKey.disable`: each is one remote
  mutation with no local state change, so there is nothing to state about the model.
- Obtaining the boto3 client (`account.client("iam")`), and the `account` back-references of users and keys. The
  three read-only calls are the `Iam` value instead.
- The `AccessDenied`/`UnauthorizedOperation` split of `ClientError`: it only selects the log message, and both paths
  return `False`. `RemoteError` is a single variant.
- Logging, `jsonDumps` and the `__str__` methods.
- `datetime`/`timedelta` arithmetic: integers stand in for both.
- The assertion failures raised by `stale`/`inactive` on unset inputs. These are preconditions instead.
- The raw `metadata` dictionary stored on each key, and `KeyError`s from malformed responses: responses are typed
  values here.
- Exceptions other than `ClientError`, which would escape `check`.
- Key statuses other than `Active` and `Inactive`. The source only compares with `"Inactive"`, and IAM reports only
  these two.
- Remote state that changes during a run: each call's answer is a fixed function of its argument.
- Pagination of `list_users` and `list_access_keys`: the source reads only the first page (`['Users']`,
  `['AccessKeyMetadata']`) and never follows a truncation marker. The model does the same: each response is the
  whole list.
