# Verified model of the provablyfine access-control server

provablyfine hands out SSH certificates. Roles give sessions, boundaries take them away, and around that
decision the server rotates signing keys, refuses replayed requests, numbers an audit log and speaks a few
byte-level protocols. This project models the parts where a property over all inputs or all runs decides
whether the system does what it says, and proves those properties with Dafny 4.11.

`dafny verify dfyconfig.toml` checks everything. Each module follows one part of the program:

| file | what it is about |
|---|---|
| `Sequences.dfy`, `LetterCase.dfy` | lists without repetitions, and letters up to their case |
| `Grants.dfy` | grants, roles and boundaries as they are stored |
| `SshVerdict.dfy`, `SshChecker.dfy` | the SSH decision engine: finite forms against a pointwise meaning, monotonicity, enumeration |
| `SshCertificate.dfy` | what a user certificate embeds and how long it lives |
| `AccessChecker.dfy` | the permission check of all other resources |
| `BastionGrants.dfy` | the cleanup of grants when a bastion is deleted |
| `IdentityLineage.dfy` | identities that create identities |
| `KeyRotation.dfy` | signing keys over time |
| `NonceStore.dfy` | replay protection over runs with restarts (module `Replay`) |
| `AuditCounter.dfy` | interleaved requests that number audit entries |
| `AuditPages.dfy` | paging through a log that grows |
| `Bytes.dfy`, `SshBuffer.dfy`, `SshWire.dfy` | SSH integers, buffers and ssh-agent frames |
| `FrpReader.dfy` | the reader of a bastion tunnel (module `FrpReading`) |
| `Decimal.dfy`, `HttpMessage.dfy` | HTTP/1.1 messages |
| `ContextRegistry.dfy` | the client's contexts |

Code that changes things in place is a class or a method with loops, and its contract equates the new state with
a function of the old one. The theorems are lemmas about those functions, over all inputs or all runs.

## How to read the main results

* **Decisions.** `Authorised` is the meaning of the stored grants, with quantifiers only: a session of length `d` is
  authorised when a role grant that reaches it allows `d`, every ceiling has such a grant too, and no deny that reaches
  it allows less. `Decide` runs the folds of the source over maps, and its result admits `d` exactly when that holds,
  for every capability and every command string.
* **Certificates.** `Conveys` reads a certificate by its own fields, and `StaysWithinIff` says exactly when all its
  capabilities and the command that it forces are allowed until its deadline. A session that forces no command can run
  any: `RunsWithinIff` says exactly when all these are allowed that long, too.
* **Rotation.** A run is a start time and any sequence of rotation times. Exactly one key signs from any rotation until
  the rotation period less the staging period later, whatever outages there were before. So it does at every instant if
  and only if the gaps are at most that long (`SafeScheduleIff`).
* **Replays.** A run is any sequence of requests and restarts under a clock that does not go back. The replay window that
  a restart opens is characterised in both directions (`ReplayWindowIff`).
* **Audit log.** A run is any interleaving of the steps of any number of requests that the lock on the counter row
  allows. The committed log is the numbered concatenation of the blocks that committed, and a request that commits
  nothing could as well not have been there. The views that readers page through are those of such a run.
* **Registry.** A run is any sequence of operations, each one transaction on the file.

## Where the code and its documentation differ

* Section 5 of RFC 4251 asks for the shortest form of an mpint. The writer adds one 0xFF byte for -(2^(8k-1)), and only
  there (`MpintIsShortestIff`, with -128 as the example). Its reader accepts both forms.
* A directory URL is meant to be unique in the registry. An empty context name defeats that: Python's `or` takes it for no
  name. `SaveKeepsUrlsUniqueIff` gives the exact condition and `EmptyNameBreaksUniqueness` a run.
* The wildcard row of the enumeration is documented as "any other username". A username that only a deny or a ceiling
  names is not listed, and the row need not be its decision (`WildcardIsNotExactForADeniedName`). `WildcardIsExactIff`
  says for exactly which usernames it is: no deny takes the username below the row, and the role grants, the ceilings or
  the denies leave it no more than the row.
* `CapabilityTtl` is documented to keep a grant of port forwarding for 8 hours from giving a shell of 1 hour those
  8 hours. A certificate for port forwarding forces no command, so it also opens a session, and its deadline looks at
  port forwarding only. `StaysWithinIff` has the exact condition, a shell that is allowed for at least as long as port
  forwarding, and `ForwardingOutlivesTheShell` that very example.
* A new identity is meant not to escape the boundaries that apply to its creator. It does not escape the boundaries
  themselves, but `{self}` in an SSH grant is the unix username of the caller, and a new identity has its own:
  `SelfGivesTheDescendantMore` is a run in which alice creates bob, who then has sessions that her boundary refuses her.
  `DescendantGetsNoMoreAsIff` and `DescendantGetsNoMoreSshIff` say exactly when that cannot happen, and
  `DescendantGetsNoMoreSsh` that it takes a grant that lists `{self}`.
* By default a host certificate lives for 24 hours and a key signs for at most 12 of its 24, so no host certificate can
  be verified with the published keys for all its life (`CertificateStaysVerifiableIff`). A key signs until the second
  in which it stops being published, so the same happens to a user certificate of 60 seconds that is issued late enough:
  no lifetime of more than a second always ends in time (`AlwaysVerifiableIff`).
* A context is saved under the name it was loaded with if no context targets its tenant any more. If the name has been
  given to another tenant meanwhile, that one's context is gone. `SaveKeepsOtherTenantsIff` has the exact condition and
  `StaleSaveOverwrites` a run.
* The list of hosts shows a command row for "any command" also when some named commands are denied.
  `CommandRow` says when a row shows exactly what is permitted.

## Model

| member | source | states |
|---|---|---|
| SshVerdict.AdmissionDecides | src/provablyfine/api/grant.py:448-472 | a verdict is determined by the session lengths that it admits, so "not permitted" and "unbounded" are never confused |
| SshVerdict.CoveredUnion | src/provablyfine/api/grant.py:455-460 | the union admits a length when either side does |
| SshVerdict.CoveredIntersection | src/provablyfine/api/grant.py:463-466 | the intersection admits a length when both sides do |
| SshVerdict.CoveredDeny | src/provablyfine/api/grant.py:469-472 | a deny without a bound removes everything, one with a bound caps it |
| SshVerdict.BestAdmits | src/provablyfine/api/grant.py:426-432 | the union of the entries that name an item admits a length exactly when one of them does |
| SshVerdict.CappedAdmits | src/provablyfine/api/grant.py:585-589 | after all ceilings, a length is admitted when it was before and each ceiling has an entry for it |
| SshVerdict.ReducedAdmits | src/provablyfine/api/grant.py:591-594 | after all denies, a length is admitted when it was before and no entry that names the item forbids it |
| SshVerdict.CapabilitiesAllowedBy | src/provablyfine/api/grant.py:426-432 | the map built entry by entry holds, for every capability, the largest bound of the entries that name it |
| SshVerdict.CapabilitiesIntersect | src/provablyfine/api/grant.py:434-435 | the smaller map is the intersection for every capability, missing entries included |
| SshVerdict.CapabilitiesSubtract | src/provablyfine/api/grant.py:437-445 | removing and capping entries in place is the deny of every listed entry, for every capability |
| SshVerdict.CommandsAllowedBy | src/provablyfine/api/grant.py:497-511 | the named/other form agrees with the pointwise union on every command string, named or not |
| SshVerdict.CommandPermissions.Intersect | src/provablyfine/api/grant.py:513-515 | the intersection of two finite forms is pointwise on every command string |
| SshVerdict.CommandsSubtract | src/provablyfine/api/grant.py:517-527 | subtracting in the finite form is the pointwise deny on every command string |
| SshVerdict.CommandPermissions.Candidates | src/provablyfine/api/grant.py:532-537 | the named commands that are allowed, each once, and whether unnamed ones are |
| SshVerdict.CommandRow | src/provablyfine/api/endpoints/ssh.py:290-304 | there is a row exactly when some command is permitted, it shows every permitted one, and nothing else exactly when it is a list or no named command is denied |
| SshChecker.TripletMatch | src/provablyfine/api/grant.py:314-330 | a filter lets a host through exactly when its id is absent or the host's, its tags absent or some and all on the host, and its boundaries absent or all on the host |
| SshChecker.Covers | src/provablyfine/api/grant.py:333-336 | a username is covered exactly when there is no list, the list has it, or the list has `{self}` and it is the unix username |
| SshChecker.ReachesIff | src/provablyfine/api/grant.py:357-371 | the entries that the checker finds for a demand are exactly those whose fields say that they are about it |
| SshChecker.DecideFor | src/provablyfine/api/grant.py:576-596 | the folds over finite forms give the pointwise verdict for every capability and command |
| SshChecker.Decide | src/provablyfine/api/grant.py:566-602 | from stored roles and boundaries: the decision admits a length exactly when it is authorised |
| SshChecker.DecideIsPointwise | src/provablyfine/api/grant.py:554-602 | the verdict function admits a demand exactly when a role gives it, every ceiling gives it and no deny is against it |
| SshChecker.TighterNeverRaises | src/provablyfine/api/grant.py:563-596 | fewer grants, smaller ceilings, more boundaries and more denies never raise any verdict |
| SshChecker.BoundaryNeverRaises | src/provablyfine/api/grant.py:569-570 | adding a boundary never raises a verdict |
| SshChecker.DenyNeverRaises | src/provablyfine/api/grant.py:570-570 | adding a deny entry to a boundary never raises a verdict |
| SshChecker.RoleGrantNeverLowers | src/provablyfine/api/grant.py:568-568 | adding a grant to a role never lowers a verdict |
| SshChecker.OrderAndRepetitionDoNotMatter | src/provablyfine/api/grant.py:497-596 | order and repetition of boundaries, roles, grants and list items do not change any verdict |
| SshChecker.CandidateUsernames | src/provablyfine/api/grant.py:604-620 | the usernames that matching grants name after resolving {self}, each once in order of first appearance, and whether some grant is for everyone |
| SshChecker.GrantedNamesMembers | src/provablyfine/api/grant.py:604-620 | a username is a candidate exactly when some matching grant with a username list covers it |
| SshChecker.UnlistedHasNothing | src/provablyfine/api/grant.py:604-630 | without a wildcard grant, a username that is not listed is allowed nothing |
| SshChecker.WildcardIsExact | src/provablyfine/api/grant.py:364-371 | the decision for unnamed usernames is the decision of every username that no matching entry names |
| SshChecker.VerdictIsTheLeast | src/provablyfine/api/grant.py:576-596 | a verdict is the least of what role grants, ceilings and denies would each leave on their own |
| SshChecker.WildcardIsExactIff | src/provablyfine/api/grant.py:364-371 | the wildcard entry is the decision of a username, named by entries or not, exactly when no deny takes the username below it and grants, ceilings or denies leave the username no more |
| SshChecker.WildcardIsNotExactForADeniedName | src/provablyfine/api/grant.py:604-630 | a username that only a deny names is not listed, and the wildcard entry is not its decision |
| SshChecker.ListDecisions | src/provablyfine/api/grant.py:622-630 | the enumeration is sound, lists each username once, misses nobody who is allowed something, and its wildcard entry is the decision of exactly the usernames that it speaks for, among them all that no entry names |
| SshCertificate.Deadline | src/provablyfine/api/grant.py:390-401 | a session lives exactly as long as each of the bounds lets it, and for ever only if none is finite |
| SshCertificate.Sign | src/provablyfine/api/endpoints/ssh.py:96-186 | what is refused, what the fields of a certificate convey for each action, and that its deadline is the tightest bound of what was asked for and, with a shell, of all that is held |
| SshCertificate.StaysWithinIff | src/provablyfine/api/grant.py:404-411 | all capabilities and the forced command of a certificate are allowed until its deadline exactly when, for port forwarding, a shell is allowed for at least as long |
| SshCertificate.RunsWithinIff | src/provablyfine/api/endpoints/ssh.py:96-186 | all commands that its holder can run, forced or typed, are allowed until the deadline exactly when each is allowed for as long as something that the deadline is computed from |
| SshCertificate.UnforcedRunsAnything | src/provablyfine/api/endpoints/ssh.py:96-186 | a session runs any command, and one for a command runs only that |
| SshCertificate.ForwardingOutlivesTheShell | src/provablyfine/api/endpoints/ssh.py:136-158 | with port forwarding for 8 hours and a shell for 1 hour or none, the session of the certificate lives for 8 hours |
| SshCertificate.IssueUserCertificate | src/provablyfine/api/endpoints/ssh.py:79-186 | from stored roles and boundaries: exactly when all that a living certificate conveys is authorised for that long, and exactly when all commands that its holder can run are |
| AccessChecker.ListCan | src/provablyfine/api/grant.py:27-45 | non-empty exactly when no boundary denies, every ceiling has a match and a role grants; then it is all matching grants |
| AccessChecker.TighterNeverAllowsMore | src/provablyfine/api/grant.py:27-49 | fewer grants, smaller ceilings and more denies never allow more |
| AccessChecker.BastionMatchesIff | src/provablyfine/api/grant.py:673-716 | which bastion and which action a bastion grant is about, by its fields |
| BastionGrants.GrantStore.Find | src/provablyfine/api/model/bastion_grants.py:36-45 | the roles, then the boundaries, that hold a grant naming the bastion, in table order |
| BastionGrants.GrantStore.UpdateBoundary | src/provablyfine/api/model/boundary.py:92-140 | an unset argument leaves its field alone, which is not the same as setting it to None |
| BastionGrants.GrantStore.Remove | src/provablyfine/api/model/bastion_grants.py:48-83 | every row keeps everything but the grants that name the bastion, and the result is what find would have said before |
| BastionGrants.DistinctOwners | src/provablyfine/api/model/bastion_grants.py:78-83 | dropping repeated owners leaves each role and boundary once, in order |
| BastionGrants.RemovalKeepsDecisions | src/provablyfine/api/model/bastion_grants.py:3-8 | no check changes unless a grant naming the bastion could have matched it |
| BastionGrants.OtherBastionsKept | src/provablyfine/api/grant.py:673-716 | for every caller, no decision changes about another bastion or about none in particular |
| BastionGrants.OtherTypesKept | src/provablyfine/api/model/bastion_grants.py:27-33 | for every caller, no decision changes about any other type of resource |
| BastionGrants.SshDecisionsKept | src/provablyfine/api/model/bastion_grants.py:27-33 | for every caller, no SSH verdict changes |
| BastionGrants.NothingNamesItAnyMore | src/provablyfine/api/model/bastion_grants.py:48-60 | no grant names the bastion afterwards, missing ceilings stay missing, and a ceiling becomes empty exactly when all of it named the bastion |
| BastionGrants.OnlyThoseGo | src/provablyfine/api/model/bastion_grants.py:27-33 | every other grant stays, in its place |
| BastionGrants.OnlyGrantsChange | src/provablyfine/api/model/bastion_grants.py:48-83 | ids, names and descriptions of roles and boundaries stay as they are |
| BastionGrants.MissingCeilingIsNotEmptyCeiling | src/provablyfine/api/model/bastion_grants.py:52-53 | turning an emptied ceiling into a missing one would allow what it withheld |
| IdentityLineage.IdentityTable.Create | src/provablyfine/api/endpoints/identity.py:187-239 | which of the refusals each request gets, in order of precedence and without a change; otherwise the identity gets a new id, the tags asked for, and exactly the boundaries of its creator, those asked for by name and those asked for by id |
| IdentityLineage.ReadTagIds | src/provablyfine/api/endpoints/identity.py:153-184 | the ids of the tags by name in order, then those by id, or a refusal exactly when one is missing or asked for twice |
| IdentityLineage.NamesResolveIff | src/provablyfine/api/endpoints/identity.py:141-150 | comparing two counts is enough: they agree exactly when each requested name is there and is asked for once |
| IdentityLineage.NamedBoundariesAre | src/provablyfine/api/endpoints/identity.py:141-150 | the ids that names resolve to are those of the boundaries with these names |
| IdentityLineage.EveryRunKeepsInv | src/provablyfine/api/endpoints/identity.py:200-205 | over every run of creations, updates and deletions, what an identity was given starts with what its creator was given |
| IdentityLineage.AncestorBoundariesArePassedOn | src/provablyfine/api/endpoints/identity.py:200-205 | boundaries contain those of every ancestor, deleted ones included |
| IdentityLineage.DescendantCanDoNoMore | src/provablyfine/api/grant.py:27-49 | after any run, no check lets a descendant through that stops one of its ancestors |
| IdentityLineage.NeverMoreSshIff | src/provablyfine/api/grant.py:333-336 | of two callers, the one with more boundaries is never given more as some username exactly when `{self}` does not give it that username alone, nor deny it to the other alone |
| IdentityLineage.DescendantGetsNoMoreAsIff | src/provablyfine/api/endpoints/ssh.py:86-87 | after any run, each with its own unix username: for which usernames a descendant is never given more than an ancestor, whatever roles and boundaries contain |
| IdentityLineage.DescendantGetsNoMoreSshIff | src/provablyfine/api/app_db.py:135-135 | for all usernames exactly when the descendant has no unix username and its ancestor has none either or no boundary, since no two identities share one |
| IdentityLineage.DescendantGetsNoMoreSsh | src/provablyfine/api/grant.py:563-596 | after any run, a descendant has no SSH verdict above that of an ancestor as long as no SSH grant lists `{self}`, whatever the unix usernames |
| IdentityLineage.SelfGivesTheDescendantMore | src/provablyfine/api/endpoints/identity.py:200-205 | a run in which alice creates bob under her own boundary, and bob has a session that alice cannot have |
| IdentityLineage.IdentityTable.Update | src/provablyfine/api/endpoints/identity.py:326-425 | an update of fields that is refused changes nothing, and no update changes boundaries or makes two identities share a name or a unix username |
| KeyRotation.KeyTable.CreateKeys | src/provablyfine/api/endpoints/initialize.py:13-47 | initialization leaves a current key and the one that takes over, and does not touch other kinds |
| KeyRotation.KeyTable.Rotate | src/provablyfine/api/rotate.py:14-62 | one run appends to the whole table exactly the keys that the specification adds for its kind, and nothing for a tenant without identities |
| KeyRotation.KeyTable.ReadCurrent | src/provablyfine/api/endpoints/ssh.py:18-24 | exactly the rows of the kind that have been valid for the staging period and have not expired, in table order |
| KeyRotation.OneSignerUntilTheLastExpires | src/provablyfine/api/endpoints/ssh.py:18-24 | after a rotation, exactly the last key or the one before it signs until the last one expires |
| KeyRotation.RotatedForm | src/provablyfine/api/rotate.py:20-38 | a rotation before the last key expires finds the current key, and adds a key only when none waits |
| KeyRotation.RotatedAfterOutage | src/provablyfine/api/rotate.py:26-38 | a later one starts over with the two keys of an initialization |
| KeyRotation.ExactlyOneSigner | src/provablyfine/api/rotate.py:14-38 | in every run, with any outages, exactly one key signs from the latest rotation until rotation - staging seconds later |
| KeyRotation.CurrentIsMissingIff | src/provablyfine/api/rotate.py:26-31 | the branch that creates a current key is taken exactly when the last key has expired, and never when a rotation comes within rotation - staging seconds |
| KeyRotation.CertificateStaysVerifiableIff | src/provablyfine/api/endpoints/ssh.py:307-337 | the key that signed a certificate is published for all the life of the certificate exactly when the certificate ends no later than the key, and never when it lives longer than rotation - staging |
| KeyRotation.AlwaysVerifiableIff | src/provablyfine/api/endpoints/ssh.py:307-337 | every certificate of a lifetime, whenever it is issued in whatever run, can be verified until it ends exactly when the lifetime is at most one second |
| KeyRotation.StagedLongEnough | src/provablyfine/api/endpoints/ssh.py:307-337 | a key that a rotation stages within `gap` seconds of the one before is published for more than rotation - staging - gap seconds before it signs, and until it stops |
| KeyRotation.KeysAreKept | src/provablyfine/api/rotate.py:14-38 | rotations only ever add keys |
| KeyRotation.SafeScheduleIff | src/provablyfine/api/rotate.py:14-38 | a schedule always leaves exactly one signer if and only if its gaps are at most rotation - staging |
| KeyRotation.RotationRecovers | src/provablyfine/api/rotate.py:26-33 | from any table at all, one rotation brings a signer back |
| KeyRotation.KindsDoNotInterfere | src/provablyfine/api/rotate.py:80-96 | with all kinds in one table and rotated in any order, each kind goes through the states of its own rotations only |
| KeyRotation.ExactlyOneSignerOfEachKind | src/provablyfine/api/rotate.py:80-96 | so the table has exactly one signer of each kind from the latest rotation of that kind until rotation - staging seconds later |
| Replay.NonceStore.Expire | src/provablyfine/api/signature.py:66-75 | pops from the front until the front is live, and nothing else |
| Replay.NonceStore.CheckAndAdd | src/provablyfine/api/signature.py:55-64 | refuses what predates the store or was seen, and records everything else at the back |
| Replay.NonceStore.Verify | src/provablyfine/api/signature.py:231-301 | freshness first, then the signature, and only then the store |
| Replay.ExpiredIsSuffix | src/provablyfine/api/signature.py:66-75 | evicting from the front never forgets an entry that has not expired |
| Replay.EveryRunKeepsInv | src/provablyfine/api/signature.py:36-75 | in every run, what the store accepted is remembered for as long as it is fresh |
| Replay.ReplaysAreRefused | src/provablyfine/api/signature.py:41-48 | no store accepts a request twice; two stores do only if it was created within 30 seconds of the later start |
| Replay.ReplayWindowIff | src/provablyfine/api/signature.py:44-48 | a run with such a replay exists exactly for requests created within those 30 seconds |
| Replay.UnusedNonceIsAcceptedIff | src/provablyfine/api/signature.py:55-64 | in every run, a nonce that this store has not accepted from the key passes exactly when the request is signed, was created at most 300 seconds ago or 30 ahead, and is not older than the store |
| Replay.ResidenceIsBounded | src/provablyfine/api/signature.py:66-75 | nothing stays in the store for more than 330 seconds past its insertion once a call reaches it |
| Replay.ResidenceBoundIsReached | src/provablyfine/api/signature.py:66-75 | the 330 seconds are reached |
| AuditCounter.LogIsNumberedBlocks | src/provablyfine/api/app_db.py:322-331 | in every interleaving the log is the committed blocks in commit order, whole, numbered from 1 without a hole |
| AuditCounter.CommitWritesTheWholeBlock | src/provablyfine/api/model/audit_log.py:170-204 | a commit appends exactly what its request deferred, in that order, under the next numbers |
| AuditCounter.RollbackGivesTheNumbersBack | src/provablyfine/api/app_db.py:325-326 | a request that fails or is rejected leaves log and counter as they are committed, and frees the lock |
| AuditCounter.NothingCommittedLeavesNoTrace | src/provablyfine/api/app_db.py:322-331 | take away every step of a request that committed nothing: the rest is a possible run with the same log, numbers, lock and other requests |
| AuditCounter.OneBlockPerRequest | src/provablyfine/api/dependencies.py:199-218 | a request commits its entries or those of its rejection, never both, and outside effects need its commit |
| AuditCounter.BlocksAreWhatWasAsked | src/provablyfine/api/context.py:42-77 | in every interleaving, what a request committed is what its own steps asked for, in that order: the entries of its handler, or after a rejection what it left to record |
| AuditCounter.LogOnlyGrows | src/provablyfine/api/model/audit_log.py:170-204 | what is committed later extends what was committed before |
| AuditCounter.SeenMeansSeenAllBelow | src/provablyfine/api/app_db.py:327-327 | a reader that has seen entry N has seen every entry below it, for good |
| AuditCounter.SomeoneCanGoOn | src/provablyfine/api/context.py:42-51 | requests that wait for the counter never block each other for good |
| AuditCounter.WhatMayHappen | src/provablyfine/api/dependencies.py:191-218 | what a request can do in each phase: asking, returning, being rejected, failing |
| AuditCounter.NewRequestCanCommit | src/provablyfine/api/context.py:42-55 | whenever the lock is free, a new request can put any entries into the log under the next numbers, and nothing else |
| AuditCounter.ReturnedCanCommit | src/provablyfine/api/dependencies.py:199-213 | however long it waits for the lock, a request whose handler has returned can commit exactly what the handler asked for |
| AuditCounter.RejectionCanBeRecorded | src/provablyfine/api/dependencies.py:178-216 | however long it waits for the lock, a rejected request can commit exactly what it left to record |
| AuditCounter.FailedIsOver | src/provablyfine/api/dependencies.py:178-188 | a request that has failed never does anything again |
| AuditCounter.EffectsAreWhatWasAsked | src/provablyfine/api/context.py:57-67 | the outside effects of a request are those it asked for, in order, only after its commit, and the missing ones are still to come |
| AuditCounter.AuditDatabase.InsertEntry | src/provablyfine/api/model/audit_log.py:170-190 | takes the lock, increments the counter and inserts under the new value |
| AuditCounter.AuditDatabase.CommitRequest | src/provablyfine/api/dependencies.py:199-213 | publishes the rows and the counter together and frees the lock |
| AuditCounter.AuditDatabase.RejectRequest | src/provablyfine/api/dependencies.py:178-188 | rolls back, and gives what is left to record a transaction of its own |
| AuditPages.CursorFixesTheQuery | src/provablyfine/api/model/audit_log.py:439-452 | a cursor brings back its query, with the objects of the first page, whatever happened to the names |
| AuditPages.CursorFitsOnlyItsQuery | src/provablyfine/api/model/audit_log.py:330-348 | a cursor is accepted exactly for the order and the filters that it comes from, up to the order of their lists, and goes on with the same matches |
| AuditPages.PageSplits | src/provablyfine/api/model/audit_log.py:465-480 | a page is the beginning of what is left, full unless it is the last, its cursor leaves exactly the rest, and it is last when nothing is left |
| AuditPages.SelectionIsExact | src/provablyfine/api/model/audit_log.py:418-466 | by the columns of an entry and the fields of a filter: what is left to read is every entry wanted on that side of the position, once, in order of ids |
| AuditPages.NoFilterSelectsAll | src/provablyfine/api/model/audit_log.py:418-466 | without a filter everything is read |
| AuditPages.FirstPageFollows | src/provablyfine/api/model/audit_log.py:436-452 | the first page follows all objects that ever had the name, and when it refuses to |
| AuditPages.ObjectsWithName | src/provablyfine/api/model/audit_log.py:356-363 | only ids of objects that had the name, and all of them below the limit |
| AuditPages.WrongCursorsAreRefused | src/provablyfine/api/model/audit_log.py:330-348 | a cursor that cannot be read, or of another version, is refused |
| AuditPages.Clamp | src/provablyfine/api/model/audit_log.py:468-468 | a limit from 1 to 1000 is kept, and others are brought to the nearer end |
| AuditPages.AscendingReadIsComplete | packages/provablyfine-client/src/provablyfine_client/session_client.py:809-817 | an ascending read of a growing log that reaches the last page has missed and repeated nothing |
| AuditPages.DescendingReadIsASnapshot | packages/provablyfine-client/src/provablyfine_client/session_client.py:809-817 | a descending read gives exactly the matches that existed at its first page, and ends however fast the log grows |
| AuditPages.ViewsOfRunGrow | src/provablyfine/api/app_db.py:327-327 | what readers see of any run of requests only grows, and by higher ids |
| AuditPages.DescendingReadOfRun | src/provablyfine/api/model/audit_log.py:435-480 | between any steps of any requests, a descending read ends and gives the matches committed at its first page |
| AuditPages.AscendingReadOfRun | src/provablyfine/api/model/audit_log.py:435-480 | an ascending read that ends gives the matches committed at its last page |
| AuditPages.IterAuditLog | packages/provablyfine-client/src/provablyfine_client/session_client.py:809-817 | on a log that has stopped growing the loop ends with everything that is left, or with the error of the first page |
| SshBuffer.MpintRoundTrip | src/provablyfine/ssh/buffer.py:52-57 | reading an mpint undoes writing it, for every integer |
| SshBuffer.MpintIsShortestIff | src/provablyfine/ssh/buffer.py:85-97 | the written form is the shortest exactly when the integer is not -(2^(8k-1)) |
| SshBuffer.LeastHasOneByteTooMany | src/provablyfine/ssh/buffer.py:87-89 | for -(2^(8k-1)) the form is one 0xFF in front of the shortest one |
| SshBuffer.MinusOneHundredTwentyEight | src/provablyfine/ssh/buffer.py:87-89 | -128 is written as FF 80, and 80 reads back as -128 |
| SshBuffer.FieldsRoundTrip | src/provablyfine/ssh/buffer.py:31-97 | any sequence of typed writes reads back field by field and leaves what follows |
| SshBuffer.Uint32Bytes | src/provablyfine/ssh/buffer.py:70-71 | a uint32 is four bytes, most significant first, and refused exactly when it does not fit |
| SshBuffer.Uint64Bytes | src/provablyfine/ssh/buffer.py:73-74 | a uint64 is its two halves, most significant first |
| SshBuffer.StringBytes | src/provablyfine/ssh/buffer.py:76-78 | a string is its length as a uint32 and its bytes |
| SshBuffer.Reader.ReadBytes | src/provablyfine/ssh/buffer.py:31-36 | gives the next bytes and moves past them, or fails without moving |
| SshBuffer.Reader.ReadString | src/provablyfine/ssh/buffer.py:48-50 | a length and that many bytes; without them exactly the four bytes of the length are consumed, or none if those are missing too |
| SshBuffer.Reader.ReadMpint | src/provablyfine/ssh/buffer.py:52-57 | a string read as a two's complement integer |
| SshBuffer.Writer.WriteString | src/provablyfine/ssh/buffer.py:76-78 | appends length and bytes, or nothing when the length does not fit |
| SshBuffer.Writer.WriteNestedString | src/provablyfine/ssh/buffer.py:80-83 | appends a string that holds a string |
| SshBuffer.Writer.WriteMpint | src/provablyfine/ssh/buffer.py:85-97 | appends the specified encoding of the integer |
| SshWire.FrameRoundTripIff | src/provablyfine/ssh/wire.py:108-129 | a frame is received as sent, up to its last byte, exactly when its contents are within the limit |
| SshWire.FrameBytes | src/provablyfine/ssh/wire.py:118-122 | a frame is four bytes of length, most significant first, that count the type, then the type and the contents |
| SshWire.ReceivedIs | src/provablyfine/ssh/wire.py:108-116 | what is received from any bytes at all, what is left of them, and when it is refused |
| SshWire.FramesRoundTrip | src/provablyfine/ssh/wire.py:108-129 | a sequence of messages is received in order and what follows is left alone |
| SshWire.WireSocket.RecvBytes | src/provablyfine/ssh/wire.py:97-106 | for any pattern of short receives, never asking for more than a chunk: exactly the bytes asked for, or an error once the peer is gone |
| SshWire.WireSocket.RecvMessage | src/provablyfine/ssh/wire.py:108-116 | the result and what is consumed do not depend on how the bytes arrive |
| SshWire.WireSocket.SendMessage | src/provablyfine/ssh/wire.py:118-129 | for any pattern of short sends the whole frame goes out, or after an error a proper part of it |
| SshWire.Exchange | src/provablyfine/ssh/wire.py:97-129 | a message that was sent without an error is received as it was |
| FrpReading.DecryptNext | src/provablyfine/bastion_visitor.py:72-78 | each chunk is decrypted after all chunks before it, and its bytes come after theirs |
| FrpReading.FrpReader.Fill | src/provablyfine/bastion_visitor.py:72-78 | buffers one more decrypted chunk without changing what is still to come |
| FrpReading.FrpReader.ReadExactly | src/provablyfine/bastion_visitor.py:80-85 | succeeds exactly when that many bytes are still to come, with those bytes, for any chunking |
| FrpReading.FrpReader.ReadSome | src/provablyfine/bastion_visitor.py:87-102 | gives the buffered bytes before any fresh ones, so the switch to raw bytes loses and repeats nothing |
| FrpReading.FrpReader.ReadFrame | src/provablyfine/bastion_visitor.py:105-110 | the frame and the bytes after it do not depend on the chunking |
| FrpReading.FrameRoundTrip | src/provablyfine/bastion_visitor.py:59-61 | reading undoes encoding for any JSON codec that round trips |
| FrpReading.FrameBytes | src/provablyfine/bastion_visitor.py:59-61 | a frame is the tag, eight bytes of length, most significant first, and the data |
| HttpMessage.MessageRoundTripIff | src/provablyfine/cli/http.py:20-61 | a message whose head can be told apart reads back and leaves the following bytes exactly when its content length is right |
| HttpMessage.SplitStartIff | src/provablyfine/cli/http.py:76-85 | three parts of a start line are told apart again exactly when the first two hold no space |
| HttpMessage.SplitStartJoins | src/provablyfine/cli/http.py:76-85 | splitting a start line loses nothing but its first two spaces |
| HttpMessage.NoSecondSpace | src/provablyfine/cli/http.py:76-85 | a start line is refused only if it has no second space |
| HttpMessage.RequestRoundTripIff | src/provablyfine/cli/http.py:72-97 | a request reads back exactly when its method and target hold no space |
| HttpMessage.ResponseRoundTripIff | src/provablyfine/cli/http.py:108-135 | a response reads back exactly when its version holds no space and its status code is not negative and has at most 4300 digits |
| HttpMessage.JoinedIsEnded | src/provablyfine/cli/http.py:54-61 | joining the lines and two empty ones ends every line and the head |
| HttpMessage.Deserialize | src/provablyfine/cli/http.py:20-52 | the loop over header lines gives the specified message or error and consumes exactly the message |
| HttpMessage.Serialize | src/provablyfine/cli/http.py:54-61 | writes the specified bytes, or nothing when a line is not ASCII |
| HttpMessage.GetAfterSet | src/provablyfine/cli/http.py:26-41 | the last value given for a header name counts, and no other header is touched |
| HttpMessage.RawHeadReads | src/provablyfine/cli/http.py:20-52 | a head in any letter case and spacing reads as names in lower case and values without the space in front |
| HttpMessage.CaseOfNamesDoesNotMatter | src/provablyfine/cli/http.py:39-41 | messages whose header names differ in letter case only read the same |
| HttpMessage.LStripIs | src/provablyfine/cli/http.py:40-40 | exactly the white space in front of a value goes |
| HttpMessage.BodyIsAsAnnounced | src/provablyfine/cli/http.py:42-51 | a content length with white space around it announces so many bytes, and what follows them is left |
| HttpMessage.OtherLengths | src/provablyfine/cli/http.py:42-48 | no content length means no body, and one that is no number is refused |
| HttpMessage.NoColonIsRefused | src/provablyfine/cli/http.py:35-38 | a line without a colon is refused, wherever it stands in the head |
| HttpMessage.UnfinishedLineIsRefused | src/provablyfine/cli/http.py:22-25 | a stream without the end of a line is refused |
| HttpMessage.WrittenMessage | src/provablyfine/cli/http.py:54-61 | what a written message looks like, byte by byte |
| HttpMessage.DeserializeRequest | src/provablyfine/cli/http.py:72-92 | splits the start line at its first two spaces |
| HttpMessage.DeserializeResponse | src/provablyfine/cli/http.py:108-130 | splits the status line at its first two spaces and wants a number in the middle |
| Decimal.ToDecimalIsInjective | src/provablyfine/client/configuration.py:117-120 | different suffix numbers give different names |
| Decimal.Digits | src/provablyfine/cli/http.py:49-49 | numerals are decimal, and leading zeros do not count |
| ContextRegistry.EachTryCounts | src/provablyfine/client/configuration.py:117-120 | each try rules out one more of the finitely many names, so the search ends |
| ContextRegistry.AutoName | src/provablyfine/client/configuration.py:110-120 | the tenant name, or `default`, or the first of its numbered variants that is free; never empty |
| ContextRegistry.FreeSuffix | src/provablyfine/client/configuration.py:117-120 | the number found is the least one whose name is free |
| ContextRegistry.StepKeepsPointers | src/provablyfine/client/configuration.py:304-336 | every operation keeps current and previous existing and distinct |
| ContextRegistry.EveryRunKeepsPointers | src/provablyfine/client/configuration.py:155-179 | so does every run from an empty registry, under any names |
| ContextRegistry.SaveKeepsUrlsUniqueIff | src/provablyfine/client/configuration.py:163-179 | saving keeps directory URLs unique exactly unless the context of that URL has an empty name and is saved under another one |
| ContextRegistry.EveryRunKeepsUrlsUnique | src/provablyfine/client/configuration.py:289-298 | in every run with non-empty names no two contexts target the same tenant |
| ContextRegistry.EmptyNameBreaksUniqueness | src/provablyfine/client/configuration.py:176-179 | renaming to an empty name and saving under the old one makes a second context for the URL |
| ContextRegistry.SaveKeepsOtherTenantsIff | src/provablyfine/client/configuration.py:163-179 | saving overwrites the context of another tenant exactly when no named context targets the saved one and its name is used for another |
| ContextRegistry.StaleSaveOverwrites | src/provablyfine/client/configuration.py:176-179 | a run in which the name of a deleted context was given to another tenant, whose context a save then overwrites |
| ContextRegistry.ContentsAfter | src/provablyfine/client/configuration.py:163-349 | as a table from names to contexts: what each operation changes, and that it changes nothing else |
| ContextRegistry.RefusedIff | src/provablyfine/client/configuration.py:155-336 | exactly when each operation is refused |
| ContextRegistry.PointersAfter | src/provablyfine/client/configuration.py:163-336 | where current and previous are after each operation |
| ContextRegistry.PutKeepsPlaces | src/provablyfine/client/configuration.py:179-179 | a context that is replaced keeps its place, and a new one comes last |
| ContextRegistry.NameForUrl | src/provablyfine/client/configuration.py:289-298 | the preferred name if its context targets the URL, and otherwise the first that does |
| ContextRegistry.UsePreviousUndoesUse | src/provablyfine/client/configuration.py:304-316 | going back after a switch leads to where one was; nothing is left of it exactly when the other context was the previous one already |
| ContextRegistry.RenameBack | src/provablyfine/client/configuration.py:318-328 | renaming back gives contents and both pointers back |
| ContextRegistry.RegistryObject.UseContext | src/provablyfine/client/configuration.py:304-311 | switches and remembers where from, and says whether anything changed |
| ContextRegistry.RegistryObject.UsePreviousContext | src/provablyfine/client/configuration.py:313-316 | swaps current and previous, or refuses without a change |
| ContextRegistry.RegistryObject.RenameContext | src/provablyfine/client/configuration.py:318-328 | renames the context and the pointers to it, or refuses without a change |
| ContextRegistry.RegistryObject.DeleteContext | src/provablyfine/client/configuration.py:330-336 | deletes the context and a pointer back to it, or refuses without a change |
| ContextRegistry.RegistryObject.PickName | src/provablyfine/client/configuration.py:110-120 | the loop ends with the specified name |
| ContextRegistry.RegistryObject.SaveContext | src/provablyfine/client/configuration.py:155-179 | replaces the context of that URL or adds one, and gives the name under which it now is |
| ContextRegistry.RegistryObject.SetSessionFingerprint | src/provablyfine/client/configuration.py:338-349 | changes the session key of the context of that URL and nothing else |
| ContextRegistry.RegistryFile.Transaction | src/provablyfine/client/configuration.py:260-275 | the file changes as the operation says, or not at all when it is refused |

## Left out

- Signatures, hashing, JWT, base64 and JSON: a signature verifies or not, a JSON codec is any pair of functions that round trips, and the digest of the audit filters is taken to tell filters apart.
- SQL and the database dialects: tables are sequences and maps, a transaction is a working copy and a commit, and the counter row is a lock that is held until the commit.
- Row order: the database may return signing keys in any order. Exactly one key passes the signer test, so the order does not matter.
- AuditPages.SelectionIsExact: a type prefix is compared as `LIKE` does on SQLite, where the letters A-Z match in either case. PostgreSQL tells them apart. No proof depends on it.
- AuditPages.ObjectsWithName: keeps the order of the name rows, where the source sorts the ids; only membership is used.
- Fields that an audit entry carries and the references it resolves (`_entry_refs`, `refs`), and `objects_with_name`: they fill records from lookups.
- Deletion of audit entries by retention: the log only grows here.
- `in_other_tenant`: seen from the other tenant's database its block is a request of its own, with its own deferred list.
- AuditCounter.AuditDatabase.RunAfterCommit: an action that fails after the commit is one that is not run here; the error it sends to the client is not modelled.
- IdentityLineage.IdentityTable.Create: the `can_create` check on tags and required boundaries is any predicate over grants.
- IdentityLineage.IdentityTable.Update: the permission checks, and fields that a request does not send; all fields are given here, and the tags are those that its operations lead to.
- The rows of the list of hosts for shells and port forwarding: filters over the decisions that `ListDecisions` gives.
- The permission checkers of the other resources: they differ from the bastion checker in their filters only, and `matches` stands for any filter.
- KeyRotation.KeyTable.Rotate: one run is one atomic step with constant periods, and an OIDC key is a third kind of key, where the source has a second table with the same columns.
- SshWire.Transport: closing, and the adapters for Windows pipes.
- FrpReading.FrpReader.ReadSome: a cipher is taken to give nothing for an empty chunk.
- `write_frame` and `open_tunnel`: the former only encrypts and sends what `encode_frame` gives, the latter is I/O.
- HttpMessage.StreamReader: the limit on the length of a line, and what is left in the stream after an error. The limit of 4300 digits on numbers is the default of the interpreter.
- SshCertificate.Certificate: serial number, identifier, principals, validity and connection id, which do not depend on the decision.
- ContextRegistry.RegistryFile: the migration of the legacy file, file permissions, and the time limit on the lock; JSON is taken to give back what was saved.
