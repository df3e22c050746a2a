# Proofs about the Link-my-CLI algorithms

This project models the self-contained algorithms and protocols of the repository in Dafny and proves
what they are for. Each module follows one component of the source:

- `ControlMessages`, `TaskEnvelopes` (over `JsText`): the scanner that strips leading task-notification
  envelopes, its specification by balanced prefixes, and a grammar of nested envelopes that characterises it.
- `SettingsLock`, `SettingsFiles`: `updateSettings` under concurrency, one step per file operation, and
  one call on its own. `DaemonLock`, `DaemonFiles`: the daemon's lock and state files, likewise.
  `SessionStore`: the pruned session store. (`Runs` holds runs of a state machine.)
- `Bits`, `Int32`, `Base32`, `SecretKeyBackup`, `Base64Url`: bit strings, JavaScript's 32-bit operators,
  base32 and base64url (RFC 4648, sections 4 to 6), and the key backup built on base32.
- `SessionReplica`, `SessionWaiters`, `SessionProtocol`: the session client's versioned copy of a session,
  the two promises that wait on it, and what each message and each state does to them, by its fields.
- `FenceLines`, `FenceInfo`, `InteractiveBlocks`, `InteractivePrint`: extraction of interactive blocks
  from Markdown, its declarative segmentation, and a printer for the round trip.
- `DelegationLedger`: the merge of delegation ledgers over arbitrary merge trees.
- `PublishWeb`: the web publishing procedure, with every intermediate state of the file tree recorded.
- `AccountQuota`, `FileAssets`: the quota pace over the reals, and the file part manifest.

`dafny verify dfyconfig.toml` checks the whole project.

Where a promise does not hold of the code on all inputs, the code is modelled as it is, a concrete run or
input shows the failure, and a lemma states exactly when the promise holds:

- no two holders of the settings lock, and no lost update: `SettingsLock.ExactExclusion` and
  `SettingsLock.ExactSerialisation` (failures: `Overtaken`, `LeftoverRace`, `UpdateLost`);
- one holder of the daemon lock, and no removal of another live process's lock: `DaemonLock.ExactAtomicity`
  and `DaemonLock.ExactRemoval` (failures: `ReclaimRace`, `RaceBegins`);
- pruning that no read notices: `SessionStore.ExactClocks`;
- session updates in any order: `SessionReplica.ExactConvergence` (failure: `HiddenDiverges`);
- changes of a session that are announced: `SessionWaiters.UnannouncedChange` (failure: `SilentlyArchived`);
- ledgers merged back, and the conflict flag in any order: `DelegationLedger.MergeBack` and
  `DelegationLedger.ExactFlag` (failure: `FlagDependsOnOrder`).

Findings where code and expectation differ:

- A settings lock file left behind by a crashed process lets two calls into the critical section, however
  fast holders are: both judge the file stale, and the second unlinks the lock the first has just taken.
- A session update whose metadata cannot be decoded throws before its agent state is looked at, unless
  newer metadata arrived first; so what a replica ends with can depend on the order of the updates.
- An update with good metadata and an undecodable agent state changes the replica without announcing it:
  a session can be archived while `waitForIdle` keeps waiting.
- A conflict between two ledgers at one attempt is not flagged when a later attempt is merged in first.
- An asset below a live file passes the publishing script's validation; creating its directory then fails
  after the index page has been backed up. The old page stays in place.
- `updateSettings` tests for a stale lock after the last wait too, when no attempt is left to profit from it.
- The comments on the backup format speak of seven groups; 32 bytes give eleven.

## Model

| member | source | states |
|---|---|---|
| `ControlMessages.LeadingTaskNotificationEnd` | packages/lmc-wire/src/controlMessages.ts:4-31 | the scanning loop terminates and returns the specified end for every text |
| `ControlMessages.LeadingEndShortest` | packages/lmc-wire/src/controlMessages.ts:4-31 | the specified end is the length of the shortest prefix, at least one open tag long, with equally many open and close tags; there is none exactly when no such prefix exists |
| `ControlMessages.TaskNotificationIsTagPair` | packages/lmc-wire/src/controlMessages.ts:1-2 | the two tags are `<task-notification>` and `</task-notification>`, and have the shape that the scanner's theory needs: distinct, and `<` only at their start |
| `ControlMessages.NoOverlap` | packages/lmc-wire/src/controlMessages.ts:1-2 | occurrences of two such tags cannot overlap each other or themselves |
| `ControlMessages.StripLeadingTaskNotificationWrappers` | packages/lmc-wire/src/controlMessages.ts:38-52 | the stripping loop computes the strip that the `TaskEnvelopes` lemmas characterise |
| `TaskEnvelopes.EnvelopeEnd` | packages/lmc-wire/src/controlMessages.ts:4-31 | the scanner ends exactly at the close tag of any printed envelope, however deeply it nests others and whatever follows |
| `TaskEnvelopes.ParseBody` | packages/lmc-wire/src/controlMessages.ts:12-28 | where the tag balance first falls below zero, a well-nested body and its close tag have been read |
| `TaskEnvelopes.LeadingEnvelope` | packages/lmc-wire/src/controlMessages.ts:4-31 | the scanner finds an envelope if and only if the text is a well-nested envelope followed by something |
| `TaskEnvelopes.DropPrinted` | packages/lmc-wire/src/controlMessages.ts:38-52 | print any forest of nested envelopes with any white space, then any remainder starting with neither: dropping returns exactly the remainder |
| `TaskEnvelopes.ParseForest` | packages/lmc-wire/src/controlMessages.ts:38-52 | every text is a printed forest followed by what remains: only envelopes and white space are dropped |
| `TaskEnvelopes.StripCharacterised` | packages/lmc-wire/src/controlMessages.ts:33-52 | stripping defined without the scanner, in both directions: unchanged without a complete leading envelope, otherwise the remainder after the whole forest |
| `TaskEnvelopes.StripIdempotent` | packages/lmc-wire/src/controlMessages.ts:38-52 | the result is a suffix, and stripping twice equals stripping once |
| `SettingsLock.TimelyRunsAreSafe` | packages/lmc-cli/src/persistence.ts:148-212 | in every interleaving of any number of calls whose holders finish within the stale limit, started without a lock file, and in every run of one call on any files: at most one call holds the lock, the file is the committed updaters applied in acquisition order, each call returns what it stored, and (without a lock file) none is stolen |
| `SettingsLock.FailedCallsNeverWrite` | packages/lmc-cli/src/persistence.ts:186-211 | in any run, no step of a call that failed to acquire the lock, or whose updater or file operation threw, changes the settings file |
| `SettingsLock.StepKeeps` | packages/lmc-cli/src/persistence.ts:161-212 | mutual exclusion alone keeps the file serial: any step into a state with one holder at most keeps the file equal to the committed updaters applied in acquisition order |
| `SettingsLock.StepGuards` | packages/lmc-cli/src/persistence.ts:161-212 | with holders within the stale limit every step keeps the lock file the holder's own and never stale |
| `SettingsLock.Overtaken` | packages/lmc-cli/src/persistence.ts:173-180 | from any start without a lock file, with any longer limit, a run in which a second call acquires while the first holds |
| `SettingsLock.LeftoverRace` | packages/lmc-cli/src/persistence.ts:161-180 | from any start with a leftover lock file, with any limit, a run in which two calls hold the lock |
| `SettingsLock.UpdateLost` | packages/lmc-cli/src/persistence.ts:173-204 | from either start such a run goes on to lose an update |
| `SettingsLock.ExactExclusion` | packages/lmc-cli/src/persistence.ts:154-185 | for any calls on any files: mutual exclusion holds in all runs if and only if there is one call at most, or no lock file at the start and no holder beyond the 10 s stale limit |
| `SettingsLock.ExactSerialisation` | packages/lmc-cli/src/persistence.ts:154-204 | under exactly the same condition no run, with any updaters, loses an update |
| `SettingsLock.FailsAfterFiftyLooks` | packages/lmc-cli/src/persistence.ts:162-188 | in any run from any start, a call has failed to acquire the lock if and only if it has found a lock file 50 times and has looked at it after the last one; it never opens more often |
| `SettingsLock.RunCounts` | packages/lmc-cli/src/persistence.ts:159-184 | in any run the retry counter equals the number of opens that found a lock file, and a waiting call has not looked at it since |
| `SettingsLock.OpensAgain` | packages/lmc-cli/src/persistence.ts:162-180 | with fewer than 50 such opens, a call that has looked at a fresh or vanished lock, or has unlinked a stale one, can open again |
| `SettingsLock.UnlinksStale` | packages/lmc-cli/src/persistence.ts:173-178 | a waiting call that looks at a lock file older than 10000 ms can unlink it |
| `SettingsLock.ThrowsWhenBroken` | packages/lmc-cli/src/persistence.ts:180-207 | in any run a call has thrown if and only if an open failed for another reason, its updater threw or a file operation failed |
| `SettingsLock.HolderStores` | packages/lmc-cli/src/persistence.ts:190-211 | a holder left to itself stores what its updater makes of the settings it reads, returns it, and leaves neither lock nor temporary file |
| `SettingsLock.HolderThrows` | packages/lmc-cli/src/persistence.ts:195-211 | one whose updater throws changes nothing but the lock, which it removes |
| `SettingsLock.FileErrorThrows` | packages/lmc-cli/src/persistence.ts:180-211 | a file operation may fail before the lock is taken or at any moment after: the call throws, the settings stay, a lock taken is removed |
| `SettingsFiles.SettingsDirectory.UpdateSettings` | packages/lmc-cli/src/persistence.ts:148-212 | the retry loop alone: a leftover lock blocks the call exactly when it is not yet stale 4.9 s on; otherwise the updater's result is stored, or nothing changes when it throws, and the lock is gone |
| `DaemonFiles.Directory.AcquireDaemonLock` | packages/lmc-cli/src/persistence.ts:365-424 | a lone contender facing the pid n, a positive safe integer, holds the lock if and only if n is dead and two attempts are allowed; any other payload gives way likewise, a free lock at the first attempt; never after more than two attempts |
| `DaemonFiles.Directory.ReleaseDaemonLock` | packages/lmc-cli/src/persistence.ts:429-439 | releasing removes the lock exactly when it holds this process's pid |
| `DaemonFiles.Directory.ClearDaemonState` | packages/lmc-cli/src/persistence.ts:342-358 | which files a clear removes with and without an expected pid, and that it fails only on a corrupt state file |
| `DaemonLock.StepKeeps` | packages/lmc-cli/src/persistence.ts:342-439 | with the read-check-unlink blocks atomic, every step keeps: whoever relies on the lock is named by it with a complete pid |
| `DaemonLock.RunKeeps` | packages/lmc-cli/src/persistence.ts:365-439 | so does every run of any number of processes that acquire, fail, crash, reclaim, clear and release |
| `DaemonLock.OnlyOwnOrDeadRemoved` | packages/lmc-cli/src/persistence.ts:342-439 | in every run, no step removes a lock except the process's own, a stale one it inspects, or that of the dead daemon it clears, and no state file except its own or a dead daemon's; so nobody removes another live process's files |
| `DaemonLock.ExactRemoval` | packages/lmc-cli/src/persistence.ts:388-439 | a live process's lock is removed by itself alone in all runs if and only if the reclaiming block is one step |
| `DaemonLock.ReclaimRace` | packages/lmc-cli/src/persistence.ts:388-413 | when check and unlink are two steps, four processes lead to two holders |
| `DaemonLock.ExactAtomicity` | packages/lmc-cli/src/persistence.ts:365-439 | at most one live process holds the lock, with its complete pid as payload, in all runs if and only if the reclaiming block is one step |
| `DaemonLock.DeadLockIsTaken` | packages/lmc-cli/src/persistence.ts:376-424 | from any state, a lone contender with two attempts facing a lock that names no live process has a run of its own steps that ends in holding the lock, nobody else disturbed |
| `DaemonLock.LiveLockIsLeft` | packages/lmc-cli/src/persistence.ts:388-423 | facing the lock of a live process, its attempts run out and it stops, the lock untouched |
| `DaemonLock.CleanExit` | packages/lmc-cli/src/persistence.ts:342-439 | a holder that shuts down leaves no lock, and no state file unless another daemon has replaced it |
| `DaemonLock.RecordsItself` | packages/lmc-cli/src/persistence.ts:342-439 | a holder that records itself and then shuts down leaves neither file |
| `DaemonLock.FaultEndsAttempt` | packages/lmc-cli/src/persistence.ts:383-421 | when creating, linking or opening fails for another reason, or a stale lock is gone before its unlinking, the process waits, or gives up after the last attempt |
| `DaemonLock.ShutDownClears` | packages/lmc-cli/src/persistence.ts:342-358 | shutting down removes state file and lock at once, unless another daemon has recorded itself |
| `DaemonLock.ClientClears` | packages/lmc-cli/src/daemon/controlClient.ts:160-173 | a control client that finds a daemon dead removes exactly the state file and the lock that name it, and nothing when the state file names another |
| `SessionStore.PersistedSessions.ReadPersistedSessions` | packages/lmc-cli/src/persistence.ts:459-476 | the filtering loop returns exactly the stored sessions younger than 1209600000 ms, none when the file is missing or corrupt |
| `SessionStore.PersistedSessions.PersistSession` | packages/lmc-cli/src/persistence.ts:478-488 | the new store is the fresh part of the old one with this session in it; a failed write changes nothing |
| `SessionStore.PruneThenAdd` | packages/lmc-cli/src/persistence.ts:478-484 | pruning loses nothing that a later read would have shown |
| `SessionStore.PruningInvisible` | packages/lmc-cli/src/persistence.ts:457-488 | after any sequence of persists, a read shows what an unpruned store would, if no persist's clock is ahead of it |
| `SessionStore.KeptWhileFresh` | packages/lmc-cli/src/persistence.ts:465-471 | a session that is not persisted again is kept exactly until a persist finds it too old |
| `SessionStore.ExactClocks` | packages/lmc-cli/src/persistence.ts:457-488 | pruning is invisible for all contents if and only if no persist's clock is ahead of the read's |
| `Int32.PushInt32` | packages/lmc-app/sources/auth/secretKeyBackup.ts:18 | pushing bits into the wrapped accumulator keeps it congruent to the unbounded one, for inputs of any length |
| `Int32.PickInt32` | packages/lmc-app/sources/auth/secretKeyBackup.ts:23 | the masked shift reads from the wrapped, possibly negative accumulator the bits it would read from the unbounded one |
| `Int32.PickShifted` | packages/lmc-app/sources/auth/secretKeyBackup.ts:29 | likewise for the left shift of the last bits |
| `Base32.BytesToBase32` | packages/lmc-app/sources/auth/secretKeyBackup.ts:12-33 | the two nested loops on 32-bit integers compute the unpadded base32 of section 6 of RFC 4648 |
| `Base32.CleanedToBytes` | packages/lmc-app/sources/auth/secretKeyBackup.ts:49-74 | the decoding loop computes the complete bytes of the bit string, and refuses the empty text |
| `Base32.DecodeEncode` | packages/lmc-app/sources/auth/secretKeyBackup.ts:12-74 | decoding the base32 text of any bytes gives the bytes back; its length |
| `Base32.DecodeLength` | packages/lmc-app/sources/auth/secretKeyBackup.ts:54-73 | m characters decode to floor(5m/8) bytes |
| `Base32.EncodeDigits` | packages/lmc-app/sources/auth/secretKeyBackup.ts:10-32 | character k is the digit, in the alphabet of section 6 of RFC 4648, at that place of the number the bytes spell, zero bits appended up to a multiple of five |
| `SecretKeyBackup.FormatSecretKeyForBackup` | packages/lmc-app/sources/auth/secretKeyBackup.ts:86-98 | the grouping loop joins groups of five with dashes |
| `SecretKeyBackup.Base32ToBytes` | packages/lmc-app/sources/auth/secretKeyBackup.ts:35-74 | cleaning, then decoding, or the error for a text with nothing left |
| `SecretKeyBackup.ParseBackupSecretKey` | packages/lmc-app/sources/auth/secretKeyBackup.ts:109-131 | the 32-byte test accepts a text exactly when 52 base32 characters remain after cleaning; which error otherwise |
| `SecretKeyBackup.FormattedBytesDecode` | packages/lmc-app/sources/auth/secretKeyBackup.ts:12-98 | any non-empty byte sequence survives encoding, grouping, cleaning and decoding |
| `SecretKeyBackup.BackupRoundTrip` | packages/lmc-app/sources/auth/secretKeyBackup.ts:81-131 | the backup of a 32-byte key parses back to it |
| `SecretKeyBackup.SameKey` | packages/lmc-app/sources/auth/secretKeyBackup.ts:35-73 | two accepted texts give the same key if and only if their first 51 characters and the top bit of the last agree |
| `SecretKeyBackup.MistypedDigits` | packages/lmc-app/sources/auth/secretKeyBackup.ts:40-44 | anywhere in a text, 0, 1, 8 and 9 are read as O, I, B and G |
| `SecretKeyBackup.DashIgnored` | packages/lmc-app/sources/auth/secretKeyBackup.ts:47 | a dash anywhere in a text changes nothing |
| `SecretKeyBackup.OtherCharacters` | packages/lmc-app/sources/auth/secretKeyBackup.ts:40-47 | any other character counts as its upper-case form, and as nothing when that is not a base32 character |
| `SecretKeyBackup.ParseErrors` | packages/lmc-app/sources/auth/secretKeyBackup.ts:109-131 | which of the two errors a rejected text gives, and that exactly 52 remaining characters are accepted |
| `SecretKeyBackup.GroupsOfFive` | packages/lmc-app/sources/auth/secretKeyBackup.ts:89-95 | every group but the last has five characters, and joined they are the text |
| `SecretKeyBackup.ElevenGroups` | packages/lmc-app/sources/auth/secretKeyBackup.ts:81-98 | a 32-byte key gives eleven groups |
| `Base64Url.EncodedIsUrlSafe` | packages/lmc-agent/src/encryption.ts:14-20 | no `+`, `/` or `=` is emitted |
| `Base64Url.RestoreEncoded` | packages/lmc-agent/src/encryption.ts:22-28 | the padding formula restores exactly the base64 text that encoding started from |
| `Base64Url.DecodeEncodeUrl` | packages/lmc-agent/src/encryption.ts:14-28 | every byte sequence survives the round trip |
| `Base64Url.EncodeUrlDigits` | packages/lmc-agent/src/encryption.ts:14-20 | character k is the digit, in the URL-safe alphabet of section 5 of RFC 4648, at that place of the number the bytes spell, zero bits appended up to a multiple of six |
| `SessionReplica.SessionClient.constructor` | packages/lmc-agent/src/session.ts:94-105 | a client starts at version 0, with the initial agent state if one is given |
| `SessionReplica.SessionClient.OnUpdate` | packages/lmc-agent/src/session.ts:139-187 | the new replica and the one event emitted, for every update, malformed ones included |
| `SessionReplica.MetadataIsLatest` | packages/lmc-agent/src/session.ts:161-168 | after any updates the metadata is the newest that decodes, or what it was |
| `SessionReplica.AgentStateBounds` | packages/lmc-agent/src/session.ts:169-178 | after any updates the agent state is at least as new as every one that cannot be suppressed, and came from one that can arrive |
| `SessionReplica.Convergence` | packages/lmc-agent/src/session.ts:160-183 | every reordering and duplication of updates in which nothing can be hidden ends with the same replica, the newest of each cell |
| `SessionReplica.HiddenDiverges` | packages/lmc-agent/src/session.ts:160-186 | otherwise two orders of the same updates end differently |
| `SessionReplica.ExactConvergence` | packages/lmc-agent/src/session.ts:160-186 | the end is independent of order and duplication if and only if no newest agent state travels with malformed metadata that decodable metadata has overtaken |
| `SessionReplica.DecodableConverges` | packages/lmc-agent/src/session.ts:160-183 | in particular when all metadata decodes, each cell ends with the largest version seen |
| `SessionReplica.VersionsNeverGoDown` | packages/lmc-agent/src/session.ts:161-178 | neither version decreases, and an unchanged version means an unchanged value |
| `SessionWaiters.NeverBoth` | packages/lmc-agent/src/session.ts:44-85 | no message is both a turn event and a ready event |
| `SessionWaiters.SettlesFirst` | packages/lmc-agent/src/session.ts:296-310 | a promise settles with an outcome if and only if some event qualifies for it and none before it does |
| `SessionWaiters.SettledStays` | packages/lmc-agent/src/session.ts:296-310 | whatever comes after the settling event is ignored |
| `SessionWaiters.OneMore` | packages/lmc-agent/src/session.ts:316-342 | what one more event adds to the history the verdict is read from |
| `SessionWaiters.TurnWaiter.constructor` | packages/lmc-agent/src/session.ts:291-294 | the flags of a wait that has seen nothing agree with the empty trace |
| `SessionWaiters.TurnWaiter.OnMessage` | packages/lmc-agent/src/session.ts:316-342 | the captured flags decide as the declarative verdict over the whole trace does, for a message |
| `SessionWaiters.TurnWaiter.OnStateChange` | packages/lmc-agent/src/session.ts:344-355 | the same for a state change |
| `SessionWaiters.TurnWaiter.OnDisconnect` | packages/lmc-agent/src/session.ts:357-359 | the same for a disconnect |
| `SessionWaiters.TurnWaiter.OnTimeout` | packages/lmc-agent/src/session.ts:312-314 | the same for the timeout |
| `SessionWaiters.NamedTurnRunsToItsEnd` | packages/lmc-agent/src/session.ts:319-355 | while a named turn runs, no idle report and no other message ends the wait; its own or an unnamed end does |
| `SessionWaiters.IdleWaiter.constructor` | packages/lmc-agent/src/session.ts:253-261 | the check made at once counts as a first state change |
| `SessionWaiters.IdleWaiter.OnStateChange` | packages/lmc-agent/src/session.ts:268-277 | the wait settles by the client's current state |
| `SessionWaiters.IdleWaiter.OnDisconnect` | packages/lmc-agent/src/session.ts:279-282 | a disconnect rejects a pending wait and is ignored by a settled one |
| `SessionWaiters.IdleWaiter.OnTimeout` | packages/lmc-agent/src/session.ts:263-266 | likewise for the timeout |
| `SessionWaiters.IdleStep` | packages/lmc-agent/src/session.ts:245-287 | an input resolves a pending wait if and only if it announces a replica that is idle, and rejects it as archived if and only if archived |
| `SessionWaiters.IdleOnlyWhenIdle` | packages/lmc-agent/src/session.ts:245-287 | over whole runs: resolved only at a moment when the replica is idle, archived only when it is archived |
| `SessionWaiters.UnannouncedChange` | packages/lmc-agent/src/session.ts:160-186 | exactly which updates change the replica without a state change being emitted |
| `SessionWaiters.SilentlyArchived` | packages/lmc-agent/src/session.ts:161-186 | a run in which the session is archived while the wait goes on |
| `SessionProtocol.StartSettlesNothing` | packages/lmc-agent/src/session.ts:60-66 | a session message whose `ev.t` is "turn-start", with any other fields, leaves a pending wait pending |
| `SessionProtocol.EndOfTurn` | packages/lmc-agent/src/session.ts:44-67 | after a start, and whatever bystanders come between, a message whose `ev.t` is "turn-end" resolves the wait if and only if one of the two has no string as its `turn` or both have the same |
| `SessionProtocol.EndWithoutStart` | packages/lmc-agent/src/session.ts:328-330 | an end with no start before it resolves the wait |
| `SessionProtocol.ReadyNeedsAMessage` | packages/lmc-agent/src/session.ts:69-85 | the agent's "ready" event resolves the wait if and only if a message of another kind came before it |
| `SessionProtocol.OtherMessages` | packages/lmc-agent/src/session.ts:316-342 | no other message settles anything |
| `SessionProtocol.StateChangeSettles` | packages/lmc-agent/src/session.ts:344-355 | a state change settles the wait only after a message and before any start; then "archived" rejects it, and it resolves if and only if there is an agent state, `controlledByUser` is not true and `requests` is not a non-empty object |
| `SessionProtocol.Interrupted` | packages/lmc-agent/src/session.ts:263-282 | disconnecting and running out of time reject either pending wait, each with its own error |
| `SessionProtocol.IdleAtOnceByFields` | packages/lmc-agent/src/session.ts:22-42 | what the check made at once does, by the fields of the metadata and the agent state alone |
| `SessionProtocol.IdleByFields` | packages/lmc-agent/src/session.ts:245-287 | what an update does to a pending wait for idleness, by the fields of the session it leads to: rejected when archived, pending while a request is open, the user is in control or there is no agent state, resolved otherwise |
| `FenceLines.OpeningMeans` | packages/lmc-wire/src/interactiveUi.ts:56 | a line opens a fence if and only if it is white space, a longest run of at least three marks and a one-line info string |
| `FenceLines.ClosingMeans` | packages/lmc-wire/src/interactiveUi.ts:59 | a line closes a fence if and only if it holds only the same mark, at least as often |
| `FenceInfo.CleanIdNormal` | packages/lmc-wire/src/interactiveUi.ts:44-47 | ids come out normal, and exactly the normal ones come out unchanged |
| `FenceInfo.ParseInteractiveFence` | packages/lmc-wire/src/interactiveUi.ts:29-42 | the exec loop yields, for each name, the last matching attribute |
| `FenceInfo.InfoRoundTrip` | packages/lmc-wire/src/interactiveUi.ts:29-47 | a printed info string parses back to the same id, title and ref |
| `FenceInfo.SpelledMeans` | packages/lmc-wire/src/interactiveUi.ts:29-42 | an info string of any number of blank-separated words and attributes, with values in double or single quotes, bare, or with a quote that nothing closes, and white space around it, means exactly the attributes written in it |
| `FenceInfo.OnlyInteractive` | packages/lmc-wire/src/interactiveUi.ts:30-31 | only an info string that trims to `lmc-ui`, or to something that begins with it and a blank, has a meaning |
| `FenceInfo.LastTitleCounts` | packages/lmc-wire/src/interactiveUi.ts:37-40 | of several titles the last counts: trimmed, at most 80 characters of it, none when nothing is left |
| `FenceInfo.LastIdCounts` | packages/lmc-wire/src/interactiveUi.ts:37-39 | likewise for id and ref, cleaned |
| `FenceInfo.UnnamedIsUnset` | packages/lmc-wire/src/interactiveUi.ts:32-41 | what no attribute names is not set |
| `FenceInfo.LongIdIsCut` | packages/lmc-wire/src/interactiveUi.ts:44-47 | an id longer than 40 characters is cut after 40 |
| `FenceInfo.OtherIdCharacter` | packages/lmc-wire/src/interactiveUi.ts:45 | anywhere in an id, a character counts as its lower-case form, and as nothing when that has no id character |
| `InteractiveBlocks.SegmentsExist` | packages/lmc-wire/src/interactiveUi.ts:52-68 | every text has a segmentation using each line once, in order, each fence running to the first line that closes it |
| `InteractiveBlocks.SegmentsUnique` | packages/lmc-wire/src/interactiveUi.ts:52-68 | and only one |
| `InteractiveBlocks.ReadBody` | packages/lmc-wire/src/interactiveUi.ts:60-65 | the inner loop reads the lines up to the first closing one |
| `InteractiveBlocks.ExtractInteractiveBlocks` | packages/lmc-wire/src/interactiveUi.ts:52-69 | the scanner returns the interactive blocks of that segmentation |
| `InteractivePrint.ExtractAppends` | packages/lmc-wire/src/interactiveUi.ts:52-69 | a text without an open fence followed by another text yields the blocks of both |
| `InteractivePrint.OnlyLastUnclosed` | packages/lmc-wire/src/interactiveUi.ts:51-69 | only the last returned block can be unclosed |
| `InteractivePrint.QuotedYieldsNothing` | packages/lmc-wire/src/interactiveUi.ts:56-66 | any text quoted inside a fence that it does not close yields no block |
| `InteractivePrint.LongFenceQuotes` | packages/lmc-wire/src/interactiveUi.ts:59-63 | a fence longer than the text is such a fence |
| `InteractivePrint.PrintExtract` | packages/lmc-wire/src/interactiveUi.ts:29-69 | printing any blocks between fence-free lines and extracting again returns the same blocks in order, the last one possibly unfinished |
| `InteractivePrint.EveryPageFits` | packages/lmc-wire/src/interactiveUi.ts:59-68 | for every page there is a fence it can be printed in |
| `DelegationLedger.MergeEntries` | packages/lmc-wire/src/delegationLedger.ts:25-37 | the merging loop, in any order of the source's entries, computes the pointwise merge |
| `DelegationLedger.MergeDelegationLedgers` | packages/lmc-wire/src/delegationLedger.ts:22-40 | schema failures and the limit of 256 as errors, otherwise the merge |
| `DelegationLedger.MergeMeans` | packages/lmc-wire/src/delegationLedger.ts:22-40 | the merge record by record, by its fields: an absent ledger counts as empty, malformed ones and more than 256 tasks are errors, a task of one side is kept, and of two entries the higher attempt gives owner and state, the minima the deadline and budget, and the flag is set by either flag or by two owners at one attempt |
| `DelegationLedger.MergeTree` | packages/lmc-wire/src/delegationLedger.ts:13-40 | a merge tree of any shape succeeds if and only if all ledgers are valid and their tasks number at most 256, and holds exactly those tasks |
| `DelegationLedger.MergeTreeRecord` | packages/lmc-wire/src/delegationLedger.ts:26-37 | each record has the largest attempt, the smallest deadline and budget, the owner of an entry at that attempt; unflagged means that all such entries agree, flagged that some were disputed |
| `DelegationLedger.OrderIndependent` | packages/lmc-wire/src/delegationLedger.ts:22-40 | any order, shape and multiplicity gives the same tasks, attempts, deadlines and budgets, and the same owner where unflagged |
| `DelegationLedger.MergeAbsorbs` | packages/lmc-wire/src/delegationLedger.ts:26-37 | merging either input into the result again changes nothing |
| `DelegationLedger.MergeBack` | packages/lmc-wire/src/delegationLedger.ts:26-37 | merging the result into the destination gives the result; into the source, if and only if the inputs are interchangeable wherever their attempts are equal |
| `DelegationLedger.ExactFlag` | packages/lmc-wire/src/delegationLedger.ts:29-36 | for any merge tree and task, every tree over the same ledgers gives the same conflict flag if and only if no two entries disagree about one attempt, or some entry came flagged, or entries at the largest attempt disagree |
| `DelegationLedger.FlaggedTree` | packages/lmc-wire/src/delegationLedger.ts:30-35 | two disagreeing entries merged first are flagged to the end |
| `DelegationLedger.UnflaggedTree` | packages/lmc-wire/src/delegationLedger.ts:29-35 | merged into an undisputed entry at the largest attempt, a dispute below it is never seen |
| `DelegationLedger.FlagDependsOnOrder` | packages/lmc-wire/src/delegationLedger.ts:29-36 | the conflict flag does depend on the order: an example of three ledgers |
| `PublishWeb.LiveTree.Validate` | packages/lmc-app/scripts/release/publish-web.py:45-64 | an asset under `_expo` or `assets` that is live with other content and not named in `--allow-replace` fails it, as do an exception naming no or several assets and an unknown link; nothing else does, and a failure names a real fault |
| `PublishWeb.AcceptableMeans` | packages/lmc-app/scripts/release/publish-web.py:45-64 | acceptable, in terms of components and names: each exception names exactly one asset; no changed asset under `_expo` or `assets` lacks approval; each link is an asset, another entry of the build, a live file or a live directory; no asset stands where a live directory does |
| `PublishWeb.LiveTree.CheckExceptions` | packages/lmc-app/scripts/release/publish-web.py:46-49 | the first loop finds an exception that names no or several assets |
| `PublishWeb.LiveTree.CheckAssets` | packages/lmc-app/scripts/release/publish-web.py:50-60 | the second loop finds an unapproved change, or the set of assets to replace |
| `PublishWeb.LiveTree.CheckLinks` | packages/lmc-app/scripts/release/publish-web.py:61-64 | the third loop finds a link to nothing |
| `PublishWeb.LiveTree.Copy` | packages/lmc-app/scripts/release/publish-web.py:75-77 | a copy passes through a state in which its destination is cut short |
| `PublishWeb.LiveTree.Replace` | packages/lmc-app/scripts/release/publish-web.py:78 | a replacement is one state change |
| `PublishWeb.LiveTree.SaveAndReplace` | packages/lmc-app/scripts/release/publish-web.py:72-78 | an original is saved before its place is taken, every state on the way safe |
| `PublishWeb.LiveTree.PutAsset` | packages/lmc-app/scripts/release/publish-web.py:69-81 | one asset: fails if and only if a file stands above it or its backup name is taken, and then changes nothing; otherwise copied if absent, replaced after its original is saved under a new name and reported; every state on the way safe |
| `PublishWeb.TurnMeans` | packages/lmc-app/scripts/release/publish-web.py:69-81 | when the turn of an asset fails (a file at a proper prefix of its path, or something under its backup name) and which tree it leaves, in terms of paths and contents |
| `PublishWeb.LiveTree.TakeTurn` | packages/lmc-app/scripts/release/publish-web.py:69-81 | the turn of an asset within the loop, and what the loop has reported after it |
| `PublishWeb.LiveTree.PutAssets` | packages/lmc-app/scripts/release/publish-web.py:69-81 | the copying loop keeps every original, reports what it replaced, and with fresh names fails if and only if an asset lies below a live file |
| `PublishWeb.ReportedMeans` | packages/lmc-app/scripts/release/publish-web.py:72-79 | the report names exactly the assets that were live with other content, each with a backup name beside it made of its own name, the marker and the time |
| `PublishWeb.TurnWhenFresh` | packages/lmc-app/scripts/release/publish-web.py:69-81 | with fresh names the turn of an asset fails only below a live file, and otherwise leaves the asset in place and the others as they were |
| `PublishWeb.LiveTree.CheckServed` | packages/lmc-app/scripts/release/publish-web.py:83-87 | the check passes if and only if every asset is served with equal content and every link is a live file |
| `PublishWeb.LiveTree.SwitchIndex` | packages/lmc-app/scripts/release/publish-web.py:88-90 | after a passed check the new page takes the old one's place, every state on the way safe and the final one serving |
| `PublishWeb.LiveTree.Publish` | packages/lmc-app/scripts/release/publish-web.py:45-91 | every intermediate state is crash safe; a validation failure, such as an unapproved change of an `_expo` or `assets` file, changes nothing; success serves the new page with all it needs; with fresh names it succeeds if and only if the plan is acceptable, no asset lies below a live file and every link is to a file |
| `PublishWeb.WriteIsSafe` | packages/lmc-app/scripts/release/publish-web.py:66-81 | a write outside the originals and the backups is safe at every moment, also half done |
| `PublishWeb.ReplaceIsSafe` | packages/lmc-app/scripts/release/publish-web.py:72-78 | moving a new asset over an original is safe once the original is saved |
| `PublishWeb.SwitchIsSafe` | packages/lmc-app/scripts/release/publish-web.py:88-90 | with all assets in place, every state of the index switch is safe, the index wholly old or wholly new |
| `PublishWeb.PlacedServes` | packages/lmc-app/scripts/release/publish-web.py:83-87 | with fresh names all that the served-tree check can find is a link to no file |
| `AccountQuota.PaceUnclamped` | packages/lmc-wire/src/accountQuota.ts:45-60 | which windows have a pace, that its floor lies strictly between 0 and 100 without the clamps, and that the cap on the day never binds |
| `AccountQuota.FloorFalls` | packages/lmc-wire/src/accountQuota.ts:56-57 | the floor falls strictly, by at most 100/total per millisecond, across the taper boundary too |
| `AccountQuota.DayAdvances` | packages/lmc-wire/src/accountQuota.ts:51-55 | the day number never decreases |
| `AccountQuota.HasPace` | packages/lmc-wire/src/accountQuota.ts:45-54 | exactly which windows and times have a pace, by their fields |
| `AccountQuota.DayNumber` | packages/lmc-wire/src/accountQuota.ts:55 | the day number d: d - 1 whole days, and less than d, have passed since the window's start |
| `AccountQuota.DaysRounded` | packages/lmc-wire/src/accountQuota.ts:53-60 | the number of days is the window's length rounded half up |
| `AccountQuota.FloorValue` | packages/lmc-wire/src/accountQuota.ts:56-58 | the floor in closed form, before and in the last day |
| `FileAssets.UniqueManifest` | packages/lmc-wire/src/fileAssets.ts:21-34 | for every size up to 2 GiB exactly one list of part sizes is accepted, and for no other size any |
| `FileAssets.LimitsInBytes` | packages/lmc-wire/src/fileAssets.ts:1-34 | an accepted manifest holds at most 2147483648 bytes in at most 256 parts, all of 8388608 bytes but the last, which is shorter or equal and not empty in a file that is not |
| `FileAssets.FullPartsThenRest` | packages/lmc-wire/src/fileAssets.ts:21-34 | every list of full parts and a last part of at most 8388608 bytes, within 2147483648 in all, is accepted |
| `FileAssets.SumTestRedundant` | packages/lmc-wire/src/fileAssets.ts:29-31 | the sum test and the bounds, 256 parts included, follow from the other two tests |
| `FileAssets.Offsets` | packages/lmc-wire/src/fileAssets.ts:29-31 | the running offset of a part |
| `FileAssets.PartsTile` | packages/lmc-wire/src/fileAssets.ts:21-34 | the parts tile the file: each byte lies in exactly one |

## Left out

- Strings are sequences of Unicode scalar values, not UTF-16 code units: the limits of 40 and 80 characters and the scanner's offsets count scalars.
- Case mapping (`toUpperCase`, `toLowerCase`) is a parameter, one character at a time; round trips assume that it leaves the target alphabet alone.
- Concurrency is modelled by state machines whose steps are the file operations; the imperative classes beside them are single calls without contenders.
- `SettingsLock.ExactExclusion`: one clock serves `Date.now` and file times, in whole milliseconds; a crash during a run counts as a holder that exceeds the limit, and a crash before it as a lock file found at the start.
- `DaemonLock.ExactAtomicity`: no pid is reused; `process.kill` failing with a permission error on a live process is not modelled; a control client clears only the files of a pid it found dead (packages/lmc-cli/src/daemon/controlClient.ts:166-172) and its two file blocks are one step each; a daemon's own clean-up is one step; a temporary file that cannot be unlinked and stays linked to the lock is not modelled.
- Settings and sessions are abstract values with a load function: JSON encoding, schema migration, `writeSettings` and `heartbeatDaemonState` are not modelled.
- The base64url ends of `formatSecretKeyForBackup` and `parseBackupSecretKey`, `normalizeSecretKey` and `isValidSecretKey`: they rest on `@/encryption/base64`, which is not part of this model.
- Node's lenient base64 decoder: only well-formed base64 is decoded, anything else gives no result.
- Cryptography, sockets, reconnection and real timers: session events arrive decrypted, versions are integers, time is an event.
- Task ids, session ids and attribute keys that name a property of JavaScript's `Object.prototype`.
- `DelegationLedger.OrderIndependent`: nothing is claimed of `state`, unread extra fields and a flagged record's owner, which depend on the order; deadlines are reals.
- `isQuotaReport`, `fableWeeklyShare`, `interactiveAnswersPrompt` and the schemas beside the modelled ones would only add easy members.
- `AccountQuota.FloorFalls`: real numbers, so floating-point rounding is not modelled.
- `PublishWeb.LiveTree.Publish`: assumes that the clock reading in the index backup's name and the process id in the temporary names make names that are new to the live tree and not above an asset; a saved asset's name needs no assumption, since the code checks it.
- Publishing: rewriting the page (title, icons, marker) and finding its links, symbolic links and file metadata; directories appear only where they make a step fail; equal hashes stand for equal contents; a crash keeps what was written before it.
