# Verified model of the server's state machines and codecs

The server runs Ansible and Terraform jobs. Most of it is handlers over SQL; this project models
the parts that carry real invariants, and proves them for every input, every run or every
reachable state:

- **Encryption keys** (`Base64`, `Aead`, `Envelope`, `Keyring`, `KeyConfig`, `KeyOrder`,
  `KeyResolution`, `Rotation`, `RotationSteps`, `RotationGuard`, `Rekey`, `VaultRows`, `Jwt`): a content-addressed key registry, envelopes
  `<id>:<ciphertext>`, trial decryption of legacy values, hot reload, and rotation as a state
  machine in which writes, reloads, rekeys, checks and removals interleave freely.
- **External identities** (`Identity`, `IdentityRuns`, `IdentityLogins`): logins, links and unlinks over the user and
  identity tables under the three matching modes.
- **Task retention and pagination** (`Retention`, `TaskPages`).
- **The WebSocket hub** (`Hub`, `HubRuns`): registration and broadcast over bounded channels.
- **Remote runners** (`Runner`, `RunnerRuns`, `RunnerReports`): dispatch and progress.
- **Migrations** (`Migration`) and **codecs** (`Decimal`, `BuildVersion`, `ShellQuote`, `Escape`,
  `NestedOptions`).

Where the source changes tables, fields or slices in place, the model is a class or a method with
loops, proved equal to a function of the old state; the laws are then lemmas about that function.

## What is taken for granted

- AES-GCM and SHA-256 are functions in a `Cipher`. `Ideal(c, keys)` says what is assumed of them: a
  sealed payload opens to its plaintext, whatever opens was sealed, and among the finitely many
  keys in play a payload opens under one key only and truncated fingerprints differ.
  `Aead.IdealIsSatisfiable` shows that the assumptions are consistent, and
  `RotationGuard.InvIsSatisfiable` that the rotation invariant can be met under them.
- Nonces, random draws, map iteration orders, creation times and file contents are parameters of the
  results, and so are the database failures of logins, runner reports, raw output and migrations;
  "Left out" names the failures that are not modelled.
- Each handler or store method is one step, except that a hub broadcast visits connections one by
  one and that `vault check` and the later removal of a key are separate steps.

## Findings

The code is modelled as it is. Where a promise fails, the failing input and the exact condition are
both proved:

- Access secrets round-trip exactly when an access key is active or no key is registered at all
  (`Keyring.AccessRoundTrip`, `Keyring.OptionKeyOnlyBreaksAccess`).
- `vault check` prints SAFE TO REMOVE from access rows alone, which can lose the signing key
  (`RotationGuard.SafeToRemoveLosesSigningKey`). Each of the four conditions of the whole report is
  needed, and together they suffice (`RotationGuard.GuardIsExact`), exactly up to 200 projects
  (`RotationGuard.GuardNeedsTheLimit`).
- The guard does not know about backups: a rollback after a guarded removal always reports success,
  and loses exactly the values that the removed key opens, stamped or legacy
  (`VaultRows.RollbackAfterRemoval`).
- Two labels that spell one key differently make the resolved keyset depend on the order in which Go
  walks the map, so the poller can report and install a change when no file changed
  (`KeyOrder.SpellingsFlipReload`). That is the only way, and only if nothing loaded later overrides
  the spelling (`KeyOrder.OrderIrrelevantIff`); no order changes which keys are registered or active
  (`KeyOrder.OrderChangesSpellingsOnly`).
- A login breaks one-identity-per-provider exactly when it adopts an account that has an identity for
  that provider (`IdentityRuns.LoginBreaksIff`). Of the three configurable matching modes "auto" and
  "never" rule this out and "always" does not (`IdentityRuns.LoginKeepsLawIff`); after it an unlink
  strips an external user (`IdentityRuns.AlwaysStrips`).
- `linkExternalIdentity` would break the law when called without a type
  (`IdentityRuns.LinkBreaksIff`). No caller does: both pass a constant.
- Retention relies on creation times being distinct. A prune leaves exactly M tasks if and only if
  rows M and M + 1 differ in time (`Retention.KeepsExactlyIff`); with up to k tasks per instant the
  bound grows with k (`Retention.RetentionBound`) and is reached for every M and k
  (`Retention.BoundIsAttained`).
- Of the terminal task statuses only Stopped is absorbing in `SetStatus`; the handler's own test is
  what protects the others (`RunnerRuns.SetStatusIsNotAbsorbing`).
- `GetNextBuildVersion` is documented to fall back to the start version; it panics on overlapping
  prefix and suffix or an oversized start number (`BuildVersion.PanicsIff`), and wraps exactly at the
  largest int (`BuildVersion.NextIsShapedIff`).
- `escapeLike` relies on backslash being LIKE's escape character. SQLite has none by default; there
  the filter is a prefix search exactly for strings without special characters
  (`Escape.UnescapedFilterIsPrefixIff`).
- Nested options fail on a walking order exactly when one key is a segment-wise prefix of another
  (`NestedOptions.NeverFailsIff`).
- `keysetsEqual` recognises a keyset exactly when it holds no empty material, which a resolved one
  never does (`Keyring.KeysetsEqualIff`).
- `Rollback` does not notice a version whose own rollback failed. It yields the versions up to the
  target exactly when no applied version above it fails (`Migration.Store.Rollback`), and otherwise
  can leave a gap (`Migration.FailedRollbackLeavesGap`, `Migration.RollbackClosedIff`).

## Model

| member | source | states |
|---|---|---|
| `Rotation.RotationSafety` | util/keyring.go:81-138 | over every interleaving of writes, deletes, reloads, row and JWT rekeys, checks and guarded removals, each secret nobody rewrote, and the JWT key, still decrypts to its original plaintext in every registry order |
| `RotationSteps.WriteStores` | util/keyring.go:81-103 | a written row lies in its project, is stamped with the active key and decrypts to the given plaintext in every order; no other row changes |
| `RotationSteps.WrittenStays` | util/keyring.go:81-138 | written, then any run that does not touch the row: it still decrypts to what was written |
| `RotationSteps.DeleteRemoves` | util/keyring.go:81-138 | a deleted row is gone, and no other |
| `RotationSteps.JwtIsCreatedOnce` | util/jwt.go:76-102 | an empty slot is filled with a value that decrypts to the generated key, a filled one is left alone |
| `RotationSteps.CreatedJwtStays` | util/jwt.go:76-153 | created, then any run: the slot still decrypts to the generated key |
| `RotationSteps.ReloadInstalls` | util/config.go:1644-1668 | a reload installs the new keyset, touches no value, and withdraws exactly the clearances of newly active keys |
| `RotationSteps.ReloadThenWrite` | util/config.go:1644-1668 | writes after a reload are stamped with the new active key and decrypt |
| `RotationSteps.CheckClears` | cli/cmd/vault_check.go:35-94 | a check clears exactly the registered, inactive keys when no value it sees is unstamped or stamped with them, and changes nothing else |
| `RotationSteps.OldKeyRescuesRow` | services/server/access_key_encryption_svc.go:225-290 | an explicit old key re-encrypts a row whose own key is not registered, from what it opens to |
| `RotationSteps.OldKeyRescuesJwt` | util/jwt.go:122-153 | the same for the signing key, when the keyset reads nothing |
| `Rotation.StepKeepsInv` | cli/cmd/vault_rekey.go:33-77 | each single step keeps every stored value readable and every cleared id unused |
| `Rotation.ReadsAfterSwap` | util/config.go:1644-1668 | a keyset swap keeps a value readable when its stamped id, or for a legacy value every id, stays registered |
| `Rotation.GuardMeansUnused` | cli/cmd/vault_check.go:35-94 | a passed guard means that no stored value, row or JWT, needs the key |
| `Rotation.RekeyReadsOriginal` | services/server/access_key_encryption_svc.go:225-290 | whatever key a rekey decrypts a readable row with, it gets the original plaintext; by the keyset it always succeeds |
| `RotationGuard.GuardIsExact` | cli/cmd/vault_check.go:72-94 | removing a registered key leaves a well-formed keyset that reads everything, in all stores with this report, if and only if it is not active, no row is stamped with it, no row is legacy and the JWT slot is neither legacy nor pending on it |
| `RotationGuard.SafeToRemoveLosesSigningKey` | cli/cmd/vault_check.go:72-86 | the printed line alone can lose the JWT signing key |
| `RotationGuard.GuardNeedsTheLimit` | db/sql/project.go:26-40 | a passed guard makes removal safe in all stores with this report if and only if there are at most 200 projects |
| `RotationGuard.GuardIsBlindPastTheLimit` | db/sql/project.go:26-40 | an instance with 201 projects and one row |
| `Rekey.RotationCompletes` | cli/cmd/vault_rekey.go:33-77 | `vault rekey` over all rows, each with its own nonce and order, and the signing key, with or without an old key: finished or given up every secret stays readable; without an old key it always finishes; finished, every key that is not active passes the guard |
| `Rekey.RekeySucceedsIff` | services/server/access_key_encryption_svc.go:225-290 | the walk over the rows gets through if and only if there is no explicit old key or it opens every row |
| `Rekey.RekeyIsRun` | cli/cmd/vault_rekey.go:33-77 | the command is a run of the rotation model |
| `RotationGuard.LegacySealNeedsItsKey` | util/keyring.go:154-185 | a legacy value is readable with its key registered and lost once it is removed |
| `RotationGuard.RestoredReadsIff` | cli/cmd/vault_rekey.go:141-192 | a value restored from a backup is readable under a later keyset if and only if the key that opened it at backup time is still registered |
| `VaultRows.RollbackAfterRemoval` | cli/cmd/vault_rekey.go:141-192 | after any rekey run and the removal of a key whose guard passed, everything is readable; rolling the whole backup back succeeds under the reduced keyset, restores the table, and loses exactly the values the removed key opens |
| `VaultRows.RollbackAfterRotation` | cli/cmd/vault_rekey.go:33-192 | the same for a finished `vault rekey` and any retired key |
| `Keyring.AccessRoundTrip` | util/keyring.go:81-112 | decrypting an encrypted access secret returns it if and only if an access key is active or the registry is empty |
| `Keyring.OptionRoundTrip` | util/keyring.go:88-119 | the same for options, whose key falls back to the access key |
| `Keyring.OptionKeyOnlyBreaksAccess` | util/keyring.go:97-103 | a registry with only an option key stores access secrets it cannot read back |
| `Keyring.LegacyOrderIrrelevant` | util/keyring.go:128-185 | decryption gives the same plaintext or failure for every two orders of the registry, for every stored string |
| `Keyring.DecryptIffReadsAs` | util/keyring.go:128-138 | decryption yields p exactly when the stamped key, or for a legacy value some registered key, opens the value to p |
| `Keyring.CandidatesNeverMixEmpty` | util/keyring.go:154-185 | the empty key is a candidate only as the sole one, exactly when there is no real key |
| `Keyring.CandidateMembers` | util/keyring.go:154-185 | the non-empty candidates are the flat and registered keys in every walking order |
| `Keyring.LegacyCandidates` | util/keyring.go:154-185 | the two loops and the in-place dedupe compute the candidate list for some order of the map |
| `Keyring.DedupeKeys` | util/keyring.go:271-282 | in place, the kept prefix is the deduplication of the original contents |
| `Keyring.DedupeSpec` | util/keyring.go:271-282 | deduplication keeps exactly the keys of the input, once each, in order of first occurrence |
| `Keyring.TrialDecrypt` | util/keyring.go:255-268 | the loop returns the first opening candidate's plaintext, trying the empty key for an empty list |
| `Keyring.KeysetsEqualIsEquality` | util/keyring.go:33-48 | equal sizes plus one-way inclusion is structural equality when no material is empty |
| `Keyring.KeysetsEqualIff` | util/keyring.go:33-48 | the comparison agrees with equality against all other keysets if and only if the keyset holds no empty material |
| `Keyring.KeyIDShape` | util/keyid.go:19-29 | every id is empty or passes isKeyID, and valid material never has an empty id |
| `Keyring.RawUrlEncodeInjective` | util/keyid.go:19-29 | equal ids mean equal truncated fingerprints |
| `Envelope.ParseUndoesEncode` | util/keyid.go:33-54 | parsing recovers id and ciphertext of every stamped value |
| `Envelope.EncodeUndoesParse` | util/keyid.go:33-54 | encoding undoes parsing on every string; an id is present exactly when it is non-empty |
| `Envelope.ParseLegacy` | util/keyid.go:45-54 | an un-prefixed base64 value parses as legacy |
| `Envelope.RawUrlEncodeIsKeyID` | util/keyid.go:60-72 | the encoding of an 8-byte fingerprint is accepted by isKeyID |
| `Aead.DecryptUndoesEncrypt` | util/encryption.go:19-60 | nonce framing, base64 and the empty-key passthrough are undone by decryption |
| `Aead.OneKeyOpens` | util/encryption.go:38-60 | two materials that open one ciphertext hold the same raw key and give the same plaintext |
| `Aead.PassthroughNeverOpens` | util/encryption.go:38-60 | a real key never opens a plaintext-stored value to itself |
| `Base64.RoundTrip` | util/encryption.go:19-60 | decoding undoes encoding on every byte string |
| `Base64.DecodeShape` | util/encryption.go:38-60 | decoding accepts only whole quads of the alphabet with padding at the end |
| `Base64.RawUrlIsStd` | util/keyid.go:19-29 | the encoding of key ids is the standard one without padding and with two characters exchanged |
| `Base64.TestVectors` | util/encryption.go:19-60 | two test vectors of section 10 of RFC 4648 |
| `KeyConfig.ResolvedIsWellFormed` | util/config.go:1431-1494 | every resolved keyset has ids that fit their keys, active ids empty or registered, and registered flat keys |
| `KeyConfig.ResolveEncryptionKeysFrom` | util/config.go:1431-1494 | the imperative resolver computes the resolution for some walking order, errors included |
| `KeyConfig.Resolver.Active` | util/config.go:1507-1540 | label, then filename (read and registered if not loaded), then the flat fallback |
| `KeyResolution.ResolvesIff` | util/config.go:1431-1540 | resolution succeeds exactly when every inline source, key file and flat key is valid, the access pointer can be followed, and then the option pointer |
| `KeyResolution.ActiveIs` | util/config.go:1507-1540 | the active ids are those of the keys the pointers lead to: label, loaded file, read file, flat key |
| `KeyResolution.NoPointerMeansFlat` | util/config.go:1507-1540 | without a pointer the flat key is active, whatever else is configured |
| `KeyResolution.FilePointerMeansFile` | util/config.go:1507-1540 | a file pointer selects the key loaded under that name, else the file at the folder-joined or absolute path |
| `KeyResolution.RegisteredIff` | util/config.go:1431-1494 | the registered ids are exactly those of the inline keys, the key files, the flat keys and the files read for pointers |
| `KeyResolution.FolderLoads` | util/config.go:1545-1569 | labels and ids of the folder are those of its regular, undotted, non-empty files |
| `KeyResolution.FolderLoadsIff` | util/config.go:1545-1569 | the folder loads exactly when each such file is readable and valid |
| `KeyResolution.SourceIs` | util/config.go:1413-1425 | value and file exclude each other; a file is read, a value taken as it is |
| `KeyResolution.ValidKeyIff` | util/config.go:1700-1719 | the valid keys are base64 of 16, 24 or 32 bytes, or empty |
| `KeyConfig.Resolver.AddFolder` | util/config.go:1545-1569 | dot entries and irregular files are skipped, an unreadable file or bad key fails the load |
| `KeyConfig.NoKeysFileIsFlatFallback` | util/keyring.go:53-75 | with no keys file the resolved keyset is the flat-field fallback, exactly when both flat keys are valid |
| `KeyOrder.OrderIrrelevantIff` | util/config.go:1431-1494 | all walking orders resolve to the same keyset, or all fail, if and only if no two labels spell one key differently without a folder, flat or active file key overriding the spelling |
| `KeyOrder.OrderChangesSpellingsOnly` | util/config.go:1431-1494 | in every configuration the order changes neither success, nor the registered ids, nor the active ids, nor the flat keys |
| `KeyOrder.SpellingsFlipReload` | util/config.go:1644-1668 | any key under two labels in two spellings makes two loads of the same files compare as changed |
| `KeyOrder.ActiveIsLabelled` | util/config.go:1507-1540 | an active label selects the key it names, folder before inline, whatever the order and the other settings; an option label that names nothing can only pick up the access key's own file |
| `KeyConfig.KeyringStore.Reload` | util/config.go:1644-1668 | a failed reload changes nothing; a successful one installs a well-formed keyset; "not changed" means identical |
| `VaultRows.EachLocalAccessKey` | cli/cmd/vault_rekey.go:82-112 | for every batch size above 0 the paging loop ends, having visited the local keys of the listed projects in order |
| `VaultRows.VisitsExactlyOnce` | cli/cmd/vault_rekey.go:82-112 | that list holds each local key of the listed projects exactly once and nothing else |
| `VaultRows.CheckCounts` | cli/cmd/vault_check.go:35-57 | the per-id counts are those of the rotation guard; total and missing are the numbers of visited secrets and of those whose key is gone |
| `VaultRows.BackupAccessKeys` | cli/cmd/vault_rekey.go:114-139 | the backup lists the ciphertext of every visited key that has one |
| `VaultRows.LiveStore.RollbackAccessKeys` | cli/cmd/vault_rekey.go:141-192 | the loop restores entry by entry, skips keys that are gone and stops at one whose current value does not decrypt under the keyset |
| `VaultRows.RestoreOfBackup` | cli/cmd/vault_rekey.go:114-192 | restoring a backup succeeds exactly when no row to restore is unreadable, and then changes exactly the backed-up secrets of current rows |
| `VaultRows.RollbackSucceedsIff` | cli/cmd/vault_rekey.go:141-192 | a rollback goes through exactly when every backed-up row still there reads as something under the keyset |
| `VaultRows.RestoreSpec` | cli/cmd/vault_rekey.go:141-192 | when restoring succeeds, and what it changes whether or not it does |
| `VaultRows.BackupThenRollback` | cli/cmd/vault_rekey.go:114-192 | backup, anything, successful rollback: backed-up ciphertexts of keys still present are back verbatim, no other row or column changed |
| `VaultRows.RollbackUndoesRekey` | cli/cmd/vault_rekey.go:114-192 | under the rotation invariant, backup, any run of row and JWT rekeys and checks with any old keys, orders and nonces, rollback always succeeds and restores the whole table |
| `Jwt.DecryptStored` | util/keyring.go:116-119 | option decryption with its candidate list and trial loop |
| `Jwt.OptionStore.LoadOrCreateJWTKey` | util/jwt.go:76-102 | the slot moves as in the rotation model, and the result is its plaintext |
| `Jwt.SlotDecidesRemoval` | util/jwt.go:107-116 | what the reported slot implies: a missing key reads as nothing; after removing a retired key an active slot still reads, a pending one unless it names that key, a legacy one unless that key opens it |
| `Jwt.OptionStore.RekeyJWTSigningKey` | util/jwt.go:122-153 | keyset first, then the explicit old key; the slot moves as in the rotation model; success exactly when decryption and encryption succeed |
| `Jwt.RekeyKeepsSigningKey` | util/jwt.go:122-153 | a readable signing key survives every rekey and is then stamped with the active option key |
| `Identity.Tables.GetExternalIdentity` | db/sql/external_identity.go:17-23 | the owner of (type, provider, uid), if any |
| `Identity.Tables.MatchExternalUserByEmail` | api/login_identity.go:111-153 | matching by verified email or allowed username under the configured mode, external users only |
| `Identity.Tables.SyncExternalUserAttrs` | api/login_identity.go:208-229 | only external users change, and only to a free email |
| `Identity.Tables.ResolveExternalUser` | api/login_identity.go:43-107 | the new tables and result for every mode, profile and database fault |
| `IdentityLogins.LoginSucceedsIff` | api/login_identity.go:43-107 | when a login succeeds, over the tables, the profile and the faults: bound, adopting and creating |
| `IdentityLogins.BoundLoginIff` | api/login_identity.go:43-64 | a bound identity gets its user exactly when the profile can be synchronised, and the tables it leaves |
| `IdentityLogins.AdoptingLoginIff` | api/login_identity.go:65-80 | an adoption succeeds exactly when the identity goes in and the profile can be synchronised, and the tables it leaves |
| `IdentityLogins.CreatingLoginIff` | api/login_identity.go:81-107 | a creation succeeds exactly for a complete profile with unknown username and email and no insert fault; the account carries the profile |
| `IdentityLogins.MatchFailsIff` | db/sql/user.go:290-323 | matching fails exactly when two accounts answer |
| `IdentityLogins.RefusedLogin` | api/login_identity.go:43-107 | a login without uid or type, with an unreadable table or an ambiguous match is refused and changes nothing |
| `IdentityLogins.SyncIff` | api/login_identity.go:208-229 | synchronising succeeds exactly when there is nothing to do, or the update goes through and the email is free |
| `IdentityLogins.ReturningUser` | api/login_identity.go:43-107 | whoever got in gets in again, in every mode, as the same user and without any change |
| `Identity.Tables.LinkExternalIdentity` | api/login_identity.go:171-204 | the new tables and result for every argument |
| `Identity.Tables.DeleteUserIdentity` | api/users.go:331-367 | refuses the last identity of an external user, else deletes by (user, type, provider) |
| `Identity.StepKeepsWf` | db/sql/user.go:82-114 | logins, links, unlinks and account changes keep the unique indexes and never leave an identity without its user |
| `IdentityRuns.RunsKeepOnePerProvider` | api/login_identity.go:141-150 | in modes auto and never every run keeps at most one identity per (user, type, provider) |
| `IdentityRuns.UnlinkStripsIff` | api/users.go:341-360 | an unlink strips an external user exactly when it has several identities, all of that type and provider |
| `IdentityRuns.UnlinkNeverStrips` | api/users.go:341-360 | hence in those modes, after any run, no unlink leaves an external user without identities |
| `IdentityRuns.LoginBreaksIff` | api/login_identity.go:65-77 | a login breaks one-per-provider exactly when it adopts an account that has an identity of that type and provider |
| `IdentityRuns.LoginKeepsLawIff` | api/login_identity.go:111-153 | the modes in which no login from any tables breaks it are exactly auto and never |
| `IdentityRuns.AlwaysStrips` | api/login_identity.go:111-153 | in mode always two logins and an unlink leave an external user without identities |
| `IdentityRuns.LinkBreaksIff` | api/login_identity.go:171-204 | a link breaks one-per-provider exactly when it is called for an existing user without a type, with a free non-empty uid, and the user has an OIDC identity of the provider and no untyped one |
| `IdentityRuns.EmptyKindBreaksOnePerProvider` | db/sql/external_identity.go:8-15 | an instance of that case, which no caller reaches |
| `IdentityRuns.LoginIsStable` | api/login_identity.go:43-107 | every later successful login with (type, provider, uid) returns the same user, in every mode and whatever the profile says, until it is unlinked or the user deleted |
| `IdentityRuns.AdoptsIff` | api/login_identity.go:111-153 | matching finds an account exactly when it is on and has something to go by, the account is the only one that answers, is external and, in auto, not yet pinned |
| `IdentityRuns.AdoptionIsJustified` | api/login_identity.go:43-107 | a login without its own identity reaches an existing account only that way |
| `IdentityRuns.LoginSyncsProfile` | api/login_identity.go:208-229 | a successful login brings the provider's name and email to an external user and changes no other account |
| `IdentityRuns.LinkSucceedsIff` | api/login_identity.go:171-204 | when linking succeeds, and that the identity then leads to the user |
| `IdentityLogins.LinkAddsOnly` | api/login_identity.go:171-204 | a successful link adds the identity and nothing else |
| `IdentityLogins.UnlinkIff` | api/users.go:331-367 | an unlink is refused exactly for an unknown type or an external user's only identity; otherwise the named identities are gone and no others |
| `IdentityLogins.UnlinkUndoesLink` | api/users.go:331-367 | unlinking what was just linked gives the tables back |
| `IdentityLogins.CreateUserIff` | db/sql/user.go:13-31 | an account is created exactly when its username and email are new |
| `IdentityLogins.UpdateUserIff` | db/sql/user.go:82-114 | an update goes through exactly when nobody else has the username or email, and never changes external |
| `IdentityRuns.LocalUsersOwnOnlyLinked` | api/login_identity.go:111-204 | over every run, in every mode, a local user owns an identity only if it was linked for that user |
| `IdentityRuns.FailedCreationIsUndone` | api/login_identity.go:79-107 | a failed identity insert leaves no half-created account |
| `Retention.RetentionBound` | db/sql/task.go:121-190 | with at most k tasks per instant, every run that creates a task, for every outcome of the recount, leaves at most max(M + k - 1, M + D - 1 + max(0, D - 1, k - 1)) tasks, D = M/10 |
| `Retention.BoundOfDistinct` | db/sql/task.go:121-190 | with distinct times that is M + max(0, 2D - 2) |
| `Retention.BoundIsAttained` | db/sql/task.go:121-190 | for every M and k of at least 1 some run from an empty template reaches the bound, so no bound holds without one on ties |
| `Retention.PrunedHasNewer` | db/sql/task.go:121-168 | a task is pruned only when M strictly newer ones stay, whatever the counter says |
| `Retention.PrunesIff` | db/sql/task.go:121-168 | exactly which tasks a prune deletes: past the dead zone, those with at least M strictly newer ones |
| `Retention.NoLimitKeepsAll` | db/sql/task.go:170-190 | without a limit nothing is pruned and the counter counts creations |
| `Retention.CreatedStays` | db/sql/task.go:170-190 | a created task stays unless M tasks are newer |
| `Retention.KeepsExactlyIff` | db/sql/task.go:121-168 | a prune leaves at least M tasks, and exactly M if and only if row M + 1 is missing or has another creation time |
| `Retention.OldestInstantStays` | db/sql/task.go:121-168 | while fewer than M tasks are newer than the oldest instant, no create deletes anything |
| `Retention.Cutoff` | db/sql/task.go:151-158 | the creation time in row M of the descending order, none exactly when there are fewer rows |
| `Retention.TaskTable.ClearTasks` | db/sql/task.go:121-168 | rows and counter after pruning, with the recount storing the limit |
| `Retention.TaskTable.CreateTask` | db/sql/task.go:170-190 | rows and counter after a create |
| `Retention.DeleteKeepsInv` | db/sql/task.go:384-400 | a delete removes at most the one task and can only let the counter run ahead of the truth, keeping the slack of the bound |
| `TaskPages.ParseTasksPageParams` | api/projects/tasks.go:131-158 | page size within 1..200, one row more fetched, cursor 0 or positive, bad numbers ignored |
| `TaskPages.PageIsHead` | api/projects/tasks.go:87-116 | a page is the head of the full listing, all of it unless the header is set |
| `TaskPages.HasNextIffOlderRemain` | api/projects/tasks.go:87-116 | the header is set exactly when matching tasks are left out, and those are older than the page |
| `TaskPages.ListingMembers` | db/sql/task.go:277-343 | the listing holds exactly the matching tasks below the cursor |
| `TaskPages.ListedIff` | db/sql/task.go:277-343 | what is listed, spelled out by project, template, statuses and cursor |
| `TaskPages.WalkIsListing` | db/sql/task.go:277-343 | following the cursor yields exactly the full listing of the first request, whatever newer tasks are inserted meanwhile |
| `TaskPages.WalkIsSorted` | db/sql/task.go:277-343 | with arbitrary changes during the walk, each task is returned at most once, newest first |
| `TaskPages.WalkSeesPresent` | db/sql/task.go:277-343 | a matching task present throughout is returned |
| `TaskPages.OutputToBytes` | api/projects/tasks.go:327-335 | every line cleared and newline-terminated, in order |
| `TaskPages.OutputSplits` | api/projects/tasks.go:327-335 | the output splits back into the cleared lines |
| `TaskPages.OneLine` | api/projects/tasks.go:327-335 | a line is cleared and newline-terminated, whatever it holds |
| `TaskPages.OutputBytesConcat` | api/projects/tasks.go:327-335 | outputs concatenate |
| `TaskPages.GetTaskRawOutput` | api/projects/tasks.go:337-377 | the chunked loop yields the whole output, unless a query made before the last line fails, and then exactly the lines before it |
| `Hub.HubSafety` | api/sockets/pool.go:55-87 | over every interleaving: no send on or second close of a channel, queues within 256, each peer has a gap-free prefix of what was addressed to it since registration, and nothing is lost while it is connected |
| `HubRuns.Delivery` | api/sockets/pool.go:55-87 | read off the events: a connection made for a user and registered gets, in order and without a gap, messages for everybody or that user since then and no others, and all of them while it is known and writing |
| `HubRuns.DeliversToAddresseesOnly` | api/sockets/pool.go:65-86 | the same message by message, on the message's user id |
| `HubRuns.RunsAreTraced` | api/sockets/handler.go:116-180 | a connection's user, registration, receipts, writing and closing are those of its events; it is let go only when it unregisters or overflows |
| `HubRuns.LogIsSent` | api/sockets/pool.go:65-86 | the log is what was broadcast |
| `Hub.StepKeepsInv` | api/sockets/handler.go:116-180 | each step of hub, pumps and handler keeps the protocol invariant |
| `Hub.VisitQueuesOrDisconnects` | api/sockets/pool.go:65-86 | an addressed message is queued unless the channel is full, and only then is the client disconnected |
| `Hub.SecondRegistrationPanics` | api/sockets/handler.go:151-180 | registering a connection twice can panic the hub |
| `Runner.Server.UpdateOne` | api/runners/runners.go:334-420 | pool, rows, finalizations and verdict after one reported job |
| `Runner.Server.UpdateRunner` | api/runners/runners.go:312-423 | the batch, cut short by an invalid status, and the jobs the runner must stop |
| `RunnerReports.ReportApplies` | api/runners/runners.go:334-420 | an accepted report appends its records, takes over status and commit, and finalizes a finished task; nothing else changes |
| `RunnerReports.TerminalReportApplies` | api/runners/runners.go:334-420 | a terminal status is recorded in task and row as reported, and finalizes the task |
| `RunnerReports.SetStatusIff` | services/tasks/TaskRunner_logging.go:99-164 | the reported status is taken over except for the refused transitions, listed by name |
| `RunnerReports.OtherReportsChangeNothing` | api/runners/runners.go:334-420 | every other report changes nothing, and which verdict it gets |
| `RunnerReports.BatchApplies` | api/runners/runners.go:312-423 | a batch is, for each task of the runner, its own reports in order up to the finishing one; accepted exactly when no job is bad, otherwise the jobs before the first bad one count |
| `RunnerReports.AcceptedBatchRecords` | api/runners/runners.go:312-423 | a job reported once in an accepted batch is recorded as reported |
| `RunnerReports.BatchFinalizesIff` | api/runners/runners.go:334-420 | a batch finalizes exactly the tasks it took from unfinished to finished |
| `Runner.Server.CollectTaskAccessKeys` | api/runners/runners.go:234-310 | all required keys staged, or none when one cannot be decrypted |
| `Runner.Server.PrepareRemoteJob` | api/runners/runners.go:139-229 | publishes job and keys together, or fails and finalizes the task leaving the response alone |
| `Runner.Server.GetRunner` | api/runners/runners.go:72-133 | the response and pool after polling the running tasks |
| `RunnerRuns.DispatchIsAllOrNothing` | api/runners/runners.go:113-130 | every new job has all its keys, and every key is the plaintext of one that a new job needs |
| `RunnerReports.RequiredIff` | api/runners/runners.go:234-310 | the required keys are those of the inventory, of becoming another user, of the vaults, of the inventory's repository and of the repository |
| `RunnerReports.EveryNeededKeyIsSent` | api/runners/runners.go:113-130 | each of them is in the response of a poll that hands the job out |
| `RunnerReports.PollAnswers` | api/runners/runners.go:113-130 | the response lists exactly the runner's tasks under way with their statuses, and exactly its startable, dispatchable tasks as new jobs |
| `RunnerReports.PollFails` | api/runners/runners.go:139-229 | a startable task that cannot be dispatched is failed and finalized |
| `RunnerRuns.FailureLeavesResponse` | api/runners/runners.go:139-229 | a task is published exactly when every stage can succeed; otherwise the response is unchanged and the task is failed, with the reason in its log, and finalized |
| `RunnerRuns.FinishedIsFinal` | api/runners/runners.go:334-420 | over every run a finished task's status, log and commit never change and each task is finalized at most once |
| `RunnerRuns.OnlyAssignedRunner` | api/runners/runners.go:334-420 | a report or poll changes only tasks of its runner, and finalizes only on the edge from unfinished to finished |
| `RunnerRuns.TerminatedAreOrphans` | api/runners/runners.go:334-420 | the jobs to stop were reported and are orphans, and every reported orphan is among them, whatever status it claims, unless it is not in the pool and its row cannot be loaded |
| `RunnerRuns.SetStatusIsNotAbsorbing` | services/tasks/TaskRunner_logging.go:99-164 | a status absorbs every later one exactly when it is Stopped |
| `Migration.CompareIsTotalOrder` | db/Migration.go:192-227 | antisymmetric, total and transitive |
| `Migration.TwoPartBoundsSeries` | db/Migration.go:157-190 | a two-part target bounds its whole minor series and nothing above it |
| `Migration.ParsesIff` | db/Migration.go:157-190 | which texts parse, and as what |
| `Migration.BreakIsFilter` | db/Migration.go:229-294 | breaking at the first version past the target is filtering by it |
| `Migration.PrefixKeepsClosed` | db/Migration.go:263-294 | adding any prefix keeps the applied versions downward closed |
| `Migration.RollbackIntersectsIff` | db/Migration.go:229-261 | a rollback intersects the applied versions with those it keeps exactly when no applied version it should remove fails |
| `Migration.RollbackClosedIff` | db/Migration.go:229-261 | it leaves no gap exactly when among the applied versions it should remove the failing ones come first |
| `Migration.FailedRollbackLeavesGap` | db/Migration.go:229-261 | of any two versions, a failure of the upper one leaves it applied over a gap |
| `Migration.Store.Migrate` | db/Migration.go:263-294 | whatever fails, a prefix was added and closure kept; it stops exactly at the first version that cannot be queried or applied; on success exactly the versions up to the target are added |
| `Migration.Store.Rollback` | db/Migration.go:229-261 | on success the applied versions are those up to the target if and only if no applied version above it failed to roll back; closure is kept if and only if failures come first |
| `Migration.ShippedListsAscend` | db/Migration.go:27-141 | both shipped lists parse as filed and are strictly ascending |
| `Migration.ParseText` | db/Migration.go:157-190 | parsing undoes printing of a version, extra parts ignored |
| `BuildVersion.SplitsAtLastDigitRun` | db/version.go:10-32 | on one line the pattern matches exactly when there is a digit, and splits at the last run |
| `BuildVersion.SplitShape` | db/version.go:10-32 | the three parts make up the version and the middle is a maximal digit run |
| `BuildVersion.PanicsIff` | db/version.go:19-70 | exactly when the function panics |
| `BuildVersion.OverlapPanics` | db/version.go:19-70 | a concrete panic |
| `BuildVersion.NextOfShaped` | db/version.go:19-70 | from number n the next version keeps prefix, suffix and padding with number max(start, n+1) |
| `BuildVersion.NextIsShapedIff` | db/version.go:19-70 | any current version that carries a number leads into the shape with number max(start, curr+1) if and only if that number is not the largest int, which wraps to a negative one |
| `BuildVersion.ReturnsStartIff` | db/version.go:19-70 | the start version comes back unchanged if and only if it has no number, or the current version lacks its prefix or suffix, carries no number, or carries a smaller one |
| `BuildVersion.IterateCounts` | db/version.go:19-70 | k iterations from n give n + k, never leaving the shape |
| `BuildVersion.ShapedInjective` | db/version.go:19-70 | different numbers give different versions |
| `Decimal.AtoiOfPad` | db/version.go:19-70 | parsing undoes zero-padded printing |
| `Decimal.AtoiOfSigned` | db/Migration.go:157-190 | the value of a signed digit string, if it fits |
| `Decimal.AtoiRejects` | db/Migration.go:157-190 | nothing else parses |
| `Decimal.PadOfDigits` | db/version.go:19-70 | zero-padded printing undoes parsing of any digit string |
| `ShellQuote.ShellReadsBack` | util/shell.go:14-30 | a POSIX reader takes space-joined quoted words back as exactly the original words |
| `ShellQuote.ReadQuote` | util/shell.go:20-30 | one quoted word reads as that word whatever follows |
| `ShellQuote.PlainIff` | util/shell.go:20-30 | a word is left as it is exactly when it is not empty and needs no quoting |
| `Escape.EscapeSDIsSimultaneous` | cli/cmd/syslog.go:138-143 | the chained replacements are one simultaneous escape |
| `Escape.SyslogReadsBack` | cli/cmd/syslog.go:138-143 | an RFC 5424 receiver reads the value back and finds its end |
| `Escape.EscapeLikeIsSimultaneous` | db/sql/user.go:258-264 | the chained replacements are one simultaneous escape |
| `Escape.FilterIsPrefix` | db/sql/user.go:258-264 | with backslash escapes the filter selects exactly the strings with that prefix |
| `Escape.UnescapedFilterIsPrefixIff` | db/sql/user.go:258-264 | without them it does so exactly for strings without special characters |
| `NestedOptions.ConvertFlatToNested` | db/config.go:9-29 | the loop converts the map in some walking order, or hits the failing type assertion |
| `NestedOptions.InsertFailsIff` | db/config.go:9-29 | one key fails exactly when a value stands on its way |
| `NestedOptions.NeverFailsIff` | db/config.go:9-29 | no walking order fails exactly when the keys are prefix-free |
| `NestedOptions.ConvertIgnoresOrder` | db/config.go:9-29 | then every order gives the same tree |
| `NestedOptions.FlattenUndoesConvert` | db/config.go:9-29 | and flattening it returns the input map |

## Left out

- Real cryptography: AES-GCM, SHA-256 and RSA are parameters with stated hypotheses; bcrypt, TOTP and token signing are absent.
- Access-row rekey is decryption followed by `EncryptAccessSecret`; re-marshalling of the plaintext JSON by the encryption service, and what it does to rows without a secret, are not modelled.
- Private keys stored in the clear with a trailing newline, from before encryption, are not modelled.
- Rollback is not a step of the rotation runs, whose invariant it can break as shown above. Its refusals for expired keys, blank secrets and malformed JSON are one free parameter, and the registry's order is drawn once per rollback.
- Key files are read as already trimmed text and paths are joined without cleaning.
- `ConvertFlatToNested` keeps the outer loop; the nested maps that Go mutates through references are values here, so aliasing between them is not captured.
- The Redis and high-availability paths, the workflow service and the inside of the task pool; of finalization only its start is recorded, and the server's own actions are limited to reassigning or stopping unfinished tasks, dropping finished ones and deleting their rows.
- Database errors inside retention, SQL text, dialect rewriting and the SQL of migration scripts; fatal exits are plain errors.
- LIKE is case-sensitive here; collations are not modelled.
- LDAP and OIDC flows: only the profile they hand to `resolveExternalUser`.
- WebSocket pings, deadlines and frame sizes; a pump that stops is one step.
- HTTP plumbing, JSON binding, event logs, CLI flags and setup prompts: I/O around one-branch checks.
- The branches of `GetNextBuildVersion` for one or two submatches, which its pattern cannot produce.
