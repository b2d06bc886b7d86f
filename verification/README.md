# Verified model of quickpid's core

quickpid issues persistent identifiers (PIDs): a client creates a resource in a namespace and the
service answers with a short string that nobody else gets. This project models the parts of the
service in which that can go wrong, and proves what they promise.

* **Identifiers.** `Layout.dfy` is the codec that scrambles a counter into an identifier with one
  step of a linear congruential generator and writes it in the alphabet's base, in 64-bit machine
  arithmetic. `Format.dfy` and `Charset.dfy` are the random side: rejection sampling of letters,
  generation and acceptance of PIDs. `Arithmetic.dfy` and `Template.dfy` hold the mathematics under
  both (Euclid, congruences, positional notation).
* **The backend.** `Store.dfy` says what each operation makes of the state of the in-memory backend
  and what every reachable state satisfies; `Memory.dfy` is the backend itself, a class over six
  maps whose methods are proved equal to those functions. `Observed.dfy` says field by field what
  readers see after each change. `Sorting.dfy` and `Paging.dfy` are its sorted, paginated listings.
* **Issuing.** `Issuing.dfy` is the retry protocol of one request over that backend, fed by the
  joined candidate stream of `IdGen.dfy`: which candidates it draws, and what they decide.
  `Interleaving.dfy` puts any number of requests in flight at once, every backend call one atomic
  step, and proves what no interleaving can break; a request of the one model, run alone, is a run of
  the other (`Interleaving.AllocationIsRun`).
* **Paging loops.** `Filter.dfy` is the producer and consumer that filter across pages, for every
  schedule of the two. `Credentials.dfy` deletes expired API keys while paging through them, lists
  the valid ones and logs in with them, `Mounts.dfy` streams mount grants, `Namespaces.dfy` lists and creates namespaces.
* **Access.** `Scopes.dfy` and `Access.dfy` hold the permission scopes and the role endpoints, and
  prove that ordinary users cannot leave a namespace without a manager. `Permissions.dfy` says what
  the scopes come to: what each kind of caller can and cannot change. `RoleRaces.dfy` takes check and
  change apart again and lets role requests interleave.
* **Bitstring.** `Bitstring.dfy` is the enumeration of all binary strings.

Two results are negative and come with exact conditions.

* A batch can panic on the zero value of a PID. It does exactly when, after acceptable candidates with
  fewer than n different PIDs among them, as many candidates as there are tries all repeat one of those
  (`Issuing.BatchPanicsIff`; for the whole request with its retries `Issuing.CrashesIff`). A batch of
  more items than the format accepts PIDs therefore always crashes when the generator proposes
  acceptable PIDs only, whatever is stored (`Issuing.TooLargeBatchCrashes`): eleven items suffice for
  the pattern `*` over decimal digits.
* The manager guarantee is one of requests served one at a time. Check and change are separate backend
  calls, and two managers removing each other can both succeed (`Access.CheckThenRunLosesManagers`).
  However role requests interleave, a namespace stays managed through a run exactly when no change of it
  lowers the last manager at the moment it is written (`RoleRaces.ManagedThroughoutIff`); it is enough
  that never two changes to one namespace are approved and unwritten at once
  (`RoleRaces.OneEachKeepsManagers`).

Where code and comments differ the model follows the code:

* `LessThan` on roles (api/roles.go:51-53) is less than or equal.
* The service documents that setting a role answers NamespaceNotFound (service/roles.go:61-67), but the
  write maps the backend's error to a database error (service/roles.go:73-78).
* `Pick` describes an inclusive range of accepted words (pid/charset.go:74); the bound is exclusive.
* `BatchCreateResources` on an empty batch fails in an unknown namespace, where creating its items one
  by one would not fail (`Store.EmptyBatchDiffers`).
* The generator is told of `maxAttempts*n` candidates (service/resources.go:201); up to
  `maxAttempts*n*maxAttempts` are drawn.

## Model

| member | source | states |
|---|---|---|
| Layout.EncodeIndexBijective | pid/layout.go:63-82 | the identifiers of the indexes below the space are exactly the strings that match the layout, each once |
| Layout.EncodedAffine | pid/layout.go:119-147 | read as numbers the identifiers go up by one and the same step modulo the space: the step is the first number coprime to the space from 0xbf58476d1ce4e5b9 modulo the space on, and index 0 gives 0x9e3779b97f4a7c15 modulo the space, made odd |
| Layout.TwoDecimalSlots | pid/layout.go:69-82 | two decimal slots: index 0 is "85" and index 1 is "14" |
| Layout.EncodeIndex | pid/layout.go:69-82 | the imperative encoder equals the permutation of the index written in base-b digits into the pattern, with each error exactly in its case, for every layout and index |
| Layout.EncodedInjective | pid/layout.go:69-82 | distinct indexes give distinct identifiers |
| Layout.EncodedSurjective | pid/layout.go:69-82 | every matching string has an index |
| Layout.EncodedMatches | pid/layout.go:164-188 | literals stay in place and every slot holds a letter of the alphabet |
| Layout.Space | pid/layout.go:55-61 | succeeds exactly when base^stars is below 2^64 and then equals it |
| Layout.SpaceSize | pid/layout.go:101-117 | factor-wise 128-bit overflow detection is overflow of the whole power |
| Layout.Parts | pid/layout.go:84-99 | the alphabet and the number of slots |
| Layout.ReachableSpace | pid/layout.go:101-117 | every space of a known alphabet that fits in a word, 10^19 included, is at most the additive seed |
| Layout.Scramble | pid/layout.go:123-133 | the wrapping 64-bit step equals the unbounded affine permutation on every space up to the additive seed |
| Layout.SumFits | pid/layout.go:132 | product and increment never sum past 64 bits there |
| Layout.SumFitsIff | pid/layout.go:132 | the sum is free of wrap-around for every index exactly when the space is at most the additive seed |
| Layout.HighWordBelow | pid/layout.go:157-161 | the high word of the product is below the divisor, so the machine division cannot panic |
| Layout.MulMod | pid/layout.go:157-161 | the 128-bit product reduced by machine division is the product modulo m |
| Layout.MultiplierFor | pid/layout.go:135-147 | the search ends, before its wrap to 1 is ever taken, with the first coprime multiplier in [1, space) |
| Layout.CoprimeFrom | pid/layout.go:135-147 | there is a coprime number at or after any start below the space, and the first one is found |
| Layout.PermutedInjective | pid/layout.go:119-133 | the step never maps two indexes to one value |
| Layout.PermutedSurjective | pid/layout.go:119-133 | the step reaches every value below the space |
| Layout.GcdLoop | pid/layout.go:149-154 | the loop computes the recursive greatest common divisor |
| Arithmetic.GcdIsGreatest | pid/layout.go:149-154 | that number divides both arguments and is divided by every common divisor |
| Layout.EncodeRaw | pid/layout.go:164-188 | the digit buffer is filled and substituted slot by slot |
| Layout.WriteDigits | pid/layout.go:169-176 | the buffer holds the low base-b digits, most significant first |
| Template.WordThenValue | pid/layout.go:169-176 | digits read back give the number |
| Template.ValueThenWord | pid/layout.go:169-176 | numbers written give back the digits |
| Template.ValueAppend | pid/layout.go:169-176 | the digits stand in order of significance: those of a front part count base to the power of what follows |
| Template.FillThenSlots | pid/layout.go:177-187 | a filled pattern matches and holds what it was filled with |
| Charset.Pick | pid/charset.go:58-95 | the loop returns the letter chosen by the first accepted word, or fails after a bad read or the last try |
| Charset.PickUniform | pid/charset.go:65-88 | for every letter of the alphabet the same number of words is accepted for it, namely the acceptance bound divided by the size |
| Charset.RemaindersUniform | pid/charset.go:65-88 | the acceptance bound is a multiple of the alphabet size, and below it every remainder has as many words |
| Charset.PickDecidedBy | pid/charset.go:58-95 | a pick is decided by its first accepted word alone, whatever was rejected before it, and takes no word behind it |
| Charset.AlphabetHas | pid/charset.go:15-29 | which letters each of the four character sets holds |
| Charset.RejectedExactly | pid/charset.go:74-76 | the remainder of 2^64 by the alphabet size is rejected, and a full alphabet size of words where it divides 2^64 |
| Charset.PickedLetterInAlphabet | pid/charset.go:58-95 | only letters of the alphabet are ever picked |
| Charset.KnownAlphabets | pid/charset.go:24-51 | the four alphabets are ascending, lower-case alphanumeric and of size 10, 16, 32 or 36 |
| Format.ValidatePattern | pid/pattern.go:22-40 | accepts exactly the patterns of stars, dashes and underscores with a star, and tells the two errors apart |
| Format.Validate | pid/pid.go:58-67 | accepts exactly known characters with a valid pattern |
| Format.IsValid | pid/pid.go:72-106 | true exactly on the language of the format |
| Format.Generate | pid/pid.go:109-133 | fills the pattern left to right from the random words, or reports the first failing pick |
| Format.GeneratedFrom | pid/pid.go:109-133 | where every slot has an accepted word within its 100 tries the result is the pattern filled with the letters these words pick, in order, and no further word is read |
| Format.GenerationFails | pid/pid.go:120-127 | the first slot with 100 rejected words, or with a failed read before, fails the generation, with the error of its case |
| Format.GeneratedMatches | pid/pid.go:109-133 | everything generated is in the language |
| Format.GenerateIffAccepts | pid/pid.go:72-133 | a string is accepted exactly when some random stream generates it |
| Format.AcceptedCount | pid/pid.go:72-133 | the accepted strings number exactly base^stars, the space of the layout with the same template |
| Format.AcceptedIsSlug | api/resources.go:33-43 | every accepted string passes the character check of PIDs |
| IdGen.Puller.Next | internal/idgen/generator.go:32-60 | answers with the next element of the joined stream, starts a generator only when the one before is used up, and ends for ever at an empty sequence |
| IdGen.Puller.Stop | internal/idgen/generator.go:53-59 | after stop every answer is end of stream |
| IdGen.CloseRound | internal/idgen/generator.go:35-50 | a round is cut after its first error and the next one continues the stream |
| IdGen.CutUnique | internal/idgen/generator.go:37-45 | where a round is cut is determined |
| IdGen.FollowsUnique | internal/idgen/generator.go:20-32 | what an operation that is not stopped answers is determined by its generator |
| IdGen.FirstRoundThenLater | internal/idgen/generator.go:34-50 | a first sequence is answered up to its end or first error, and what follows is answered as by the generator without that round |
| IdGen.EmptyRoundEnds | internal/idgen/generator.go:46-48 | with an empty first sequence every answer is end of stream |
| IdGen.EndlessRound | internal/idgen/generator.go:34-45 | a first sequence without end or error is all there is |
| Store.RunConsistent | backend/memory/memory.go:17-38 | after every run of operations the maps agree with each other, and no namespace's id, format or creation date and no PID is lost |
| Store.ApplyConsistent | backend/memory/memory.go:17-38 | each operation keeps all cross-map invariants and every identity |
| Store.RolesKept | backend/memory/memory_roles.go:30-81 | role entries belong to namespaces, are known and not none, and no inner map is empty |
| Store.ResourcesKept | backend/memory/memory_resources.go:62-171 | resources and namespaces share their keys, each resource is stored under its PID, none disappears |
| Store.MountsKept | backend/memory/memory_mount_grants.go:44-82 | mounts point to namespaces, grants have owners and are never empty |
| Store.KeysKept | backend/memory/memory_credentials.go:68-113 | prefix and digest pairs stay unique across all users |
| Store.BatchIsEach | backend/memory/memory_resources.go:87-126 | a batch succeeds exactly when creating its items one by one would, then reaches the same state and result, and otherwise changes nothing |
| Store.EmptyBatchDiffers | backend/memory/memory_resources.go:87-95 | the one exception |
| Store.BatchAdds | backend/memory/memory_resources.go:109-125 | a batch adds exactly its resources and leaves the others alone |
| Store.OpFrame | backend/memory/memory.go:17-38 | which of the six maps each operation leaves alone |
| Observed.UserCreated | backend/memory/memory_user.go:29-43 | what readers see of a new user, field by field, and that the others are as before |
| Observed.UserUpdated | backend/memory/memory_user.go:128-146 | the flag given or kept; password, keys and all other users as before |
| Observed.UserDeleted | backend/memory/memory_user.go:109-126 | the user, their roles and grants are gone, everybody else keeps theirs |
| Observed.PasswordWritten | backend/memory/memory_credentials.go:25-50 | the hash is the one given or empty, flag and keys stay, a failed hash changes nothing |
| Observed.KeyCreated | backend/memory/memory_credentials.go:68-113 | the stored record has every field of the request and identifies its key; each error exactly in its case |
| Observed.KeyCollisionIff | backend/memory/memory_credentials.go:88-101 | a collision is a key id the user has, or a raw key somebody owns |
| Observed.KeyRevoked | backend/memory/memory_credentials.go:163-178 | that key is gone, everything else of the user and all other users stay |
| Observed.NamespaceCreated | backend/memory/memory_namespaces.go:43-75 | fields, no resources, the owner is manager and nobody else got a role; errors in their order |
| Observed.NamespaceUpdated | backend/memory/memory_namespaces.go:87-101 | tags given or kept, time updated, identity kept |
| Observed.RoleSet | backend/memory/memory_roles.go:30-60 | the role read afterwards is the one written, every other is as before |
| Observed.RoleRemoved | backend/memory/memory_roles.go:62-81 | no role is read afterwards, every other is as before, and without a role there is an error |
| Observed.MountWritten | backend/memory/memory_mounts.go:24-35 | the URI is mounted there, every other as before |
| Observed.MountDeleted | backend/memory/memory_mounts.go:37-48 | writing the mount back restores the mounts |
| Observed.GrantWritten | backend/memory/memory_mount_grants.go:44-58 | exactly that pair of user and pattern is granted in addition |
| Observed.GrantDeleted | backend/memory/memory_mount_grants.go:60-82 | exactly that pair is no longer granted |
| Observed.ResourceCreated | backend/memory/memory_resources.go:62-85 | the record has the URL, metadata and tags of the request, is not deleted and dated now, and every other record is as before |
| Observed.BatchCreated | backend/memory/memory_resources.go:87-126 | refused as a whole for a PID repeated or stored; else each request has its own record under its own PID |
| Observed.ResourceUpdated | backend/memory/memory_resources.go:142-171 | each field given takes its value, the others and the creation date stay, every other record is as before |
| Observed.ResourcesListed | backend/memory/memory_resources.go:15-49 | exactly the records that pass the filters, each once, PIDs ascending |
| Observed.NamespacesListed | backend/memory/memory_namespaces.go:15-41 | exactly the namespaces with the tag, each once, ids ascending |
| Observed.UsersListed | backend/memory/memory_user.go:57-86 | exactly the users that pass the filters, with their flags, names ascending |
| Observed.KeysListed | backend/memory/memory_credentials.go:115-161 | exactly the keys, each once, ids ascending |
| Observed.MountsListed | backend/memory/memory_mounts.go:50-80 | exactly the mounts, by namespace and then by URI |
| Observed.GrantsListed | backend/memory/memory_mount_grants.go:13-42 | exactly the patterns, ascending |
| Memory.MemoryBackend.CreateResource | backend/memory/memory_resources.go:62-85 | refuses a missing namespace and a taken PID, else stores the new resource and nothing else |
| Memory.MemoryBackend.BatchCreateResources | backend/memory/memory_resources.go:87-126 | all or nothing, with repeats inside the batch refused |
| Memory.MemoryBackend.UpdateResource | backend/memory/memory_resources.go:142-171 | replaces only the fields given and the update time |
| Memory.MemoryBackend.CountAllResources | backend/memory/memory_resources.go:51-60 | the number of stored (namespace, PID) pairs, in any iteration order |
| Memory.MemoryBackend.ListResources | backend/memory/memory_resources.go:15-49 | the page of the sorted, filtered listing |
| Memory.MemoryBackend.CreateNamespace | backend/memory/memory_namespaces.go:43-75 | new namespace, empty resources and the owner as manager |
| Memory.MemoryBackend.UpdateNamespace | backend/memory/memory_namespaces.go:87-101 | changes tags and update time only |
| Memory.MemoryBackend.ListNamespaces | backend/memory/memory_namespaces.go:15-41 | the page of the listing sorted by id |
| Memory.MemoryBackend.GetNamespaceRole | backend/memory/memory_roles.go:13-28 | the explicit role, none without an entry |
| Memory.MemoryBackend.SetNamespaceRole | backend/memory/memory_roles.go:30-60 | writes the role, or deletes the entry for none, and refuses unknown roles and namespaces |
| Memory.MemoryBackend.DeleteNamespaceRole | backend/memory/memory_roles.go:62-81 | deletes the entry and an inner map left empty |
| Memory.MemoryBackend.CreateUser | backend/memory/memory_user.go:29-43 | a new user without keys and what is told about them, unless the name is taken |
| Memory.MemoryBackend.ListUsers | backend/memory/memory_user.go:57-86 | the page of the sorted, filtered listing |
| Memory.MemoryBackend.DeleteUser | backend/memory/memory_user.go:109-126 | the user goes with all their roles and grants, whatever order the namespaces are visited in |
| Memory.MemoryBackend.UpdateUser | backend/memory/memory_user.go:128-146 | changes the superuser flag only and tells the updated user |
| Memory.MemoryBackend.SetMount | backend/memory/memory_mounts.go:24-35 | maps the base URI to an existing namespace |
| Memory.MemoryBackend.DeleteMount | backend/memory/memory_mounts.go:37-48 | removes exactly that mount |
| Memory.MemoryBackend.ListMounts | backend/memory/memory_mounts.go:50-80 | the page of the mounts sorted by namespace, then URI |
| Memory.MemoryBackend.ListUserMountGrants | backend/memory/memory_mount_grants.go:13-42 | the page of the user's sorted patterns |
| Memory.MemoryBackend.SetMountGrant | backend/memory/memory_mount_grants.go:44-58 | adds the pattern to the user's set |
| Memory.MemoryBackend.DeleteMountGrant | backend/memory/memory_mount_grants.go:60-82 | removes the pattern, and a set left empty |
| Memory.MemoryBackend.SetPassword | backend/memory/memory_credentials.go:25-50 | sets or clears the hash; where hashing fails nothing changes |
| Memory.MemoryBackend.CreateKey | backend/memory/memory_credentials.go:68-113 | refuses an id of the user or a prefix and digest of anybody already in use, else stores the key |
| Memory.MemoryBackend.ListKeys | backend/memory/memory_credentials.go:115-161 | the page of one user's keys sorted by id |
| Memory.MemoryBackend.RevokeKey | backend/memory/memory_credentials.go:163-178 | removes exactly that key |
| Memory.MemoryBackend.LookupUserByKey | backend/memory/memory_credentials.go:180-202 | answers with an owner of the key, and with an error exactly when there is none, in any iteration order |
| Memory.OwnerUnique | backend/memory/memory_credentials.go:180-202 | a raw key has at most one owner, so the lookup does not depend on the order |
| Memory.CreatedKeyOwned | backend/memory/memory_credentials.go:68-113 | after a successful creation the key identifies its user and record, alone, through every run that neither revokes it nor deletes the user |
| Memory.OwnershipEnds | backend/memory/memory_credentials.go:163-202 | after revocation or deletion it identifies nobody |
| ApiKey.ValidateKey | internal/apikey/apikey.go:159-181 | accepts exactly keys of the right length over the alphabet |
| ApiKey.StoredParts | internal/apikey/apikey.go:118-126 | prefix and digest are those of the two parts the key is joined from |
| ApiKey.VerifiedByKeyAlone | internal/apikey/apikey.go:128-144 | where the hasher is injective a stored key is verified by that key alone |
| ApiKey.VerifiesItself | internal/apikey/apikey.go:118-144 | and by that key always |
| Sorting.Sort | backend/memory/memory_namespaces.go:15-41 | sorting what any iteration order collected gives the one ascending listing |
| Sorting.StringLessDecided | backend/memory/memory_namespaces.go:25 | the order is decided at the first different character, or by the length of a prefix |
| Issuing.AllocatePIDs | service/resources.go:191-245 | outcome and state are what exactly the candidates drawn decide, whatever might follow them; each batch that reached the insert is n distinct accepted PIDs, all but the last refused for a stored PID, and giving up means every attempt was; a failure changes nothing; the counter has grown by n per attempt; at most maxAttempts*n*maxAttempts candidates are drawn; a single creation never crashes |
| Issuing.DrawBatch | service/resources.go:206-234 | one attempt draws exactly the candidates that decide its slots, and counts each slot filled |
| Issuing.DrawSlot | service/resources.go:208-224 | the first unused candidate within the tries, or why there is none |
| Issuing.FillInsertable | service/resources.go:205-236 | every path that reaches the insert passes exactly n distinct PIDs that the format and the PID check accept |
| Issuing.BatchHoldsFirstDrawn | service/resources.go:206-234 | a batch holds the candidates drawn for it, each different one once, in the order they first came, and nothing is drawn behind the last |
| Issuing.RequestDecided | service/resources.go:191-245 | the outcome of a whole request: the first attempt that is not refused decides, by the candidates left for it alone, between crash, failed generation, missing namespace and success with the first different candidates; only success changes the store |
| Issuing.BatchFailsIff | service/resources.go:206-234 | generation fails exactly when the batch does not panic and an unusable candidate, or the end of the stream, comes before n different acceptable PIDs |
| Issuing.BatchPanicsIff | service/resources.go:206-226 | a batch panics exactly when, after acceptable candidates with fewer than n different PIDs among them, maxAttempts candidates in a row repeat one of those |
| Issuing.CrashesIff | service/resources.go:205-244 | a whole request crashes exactly when, some of its attempts refused, the candidates left are exhausted like that |
| Issuing.GivesUpIff | service/resources.go:205-244 | it gives up exactly when every attempt is refused for a PID that is stored |
| Issuing.TooLargeBatchPanics | service/resources.go:206-226 | a batch larger than the format's space always panics on acceptable candidates |
| Issuing.TooLargeBatchCrashes | service/resources.go:191-245 | and so the request crashes, whatever is stored |
| Issuing.BatchFitsSpace | service/resources.go:206-234 | no batch of distinct accepted PIDs is larger than the format's space |
| Issuing.LeftZeroIff | service/resources.go:210-226 | one slot keeps its zero value exactly when every one of its tries is a repeat |
| Issuing.SingleNeverPanics | service/resources.go:248-261 | an attempt at a single resource never panics |
| Issuing.RepeatedStreamPanics | service/resources.go:210-226 | a stream that repeats one acceptable PID panics every batch of two or more |
| Issuing.RefusedInsert | service/resources.go:236-243 | a refused insertion changes nothing, and in an existing namespace it means that some PID is stored already |
| Issuing.InsertedRecords | backend/memory/memory_resources.go:74-84 | an insertion that succeeds stores and returns for request i a record with its URL, metadata and tags, not deleted and dated now |
| Issuing.CreateIn | service/resources.go:61-87 | draws the first candidates its generator yields, which decide outcome and state; every resource returned has what its request asked for and is stored like that under its PID, which the namespace's format accepts; a single creation never crashes |
| Issuing.BatchCreateResources | service/resources.go:98-132 | the same for a batch, request by request, after the item limit and the namespace, each error exactly in its case |
| Interleaving.EveryInterleaving | service/resources.go:61-132 | for every interleaving: stored PIDs are valid for their namespace, successful creations share none, what they returned is stored, the count is the number issued, nothing stored is lost later |
| Interleaving.StepGood | service/resources.go:191-245 | every atomic step of every request keeps the joint invariant and moves forward only |
| Interleaving.WinnersDisjoint | service/resources.go:236-239 | two successful creations in one namespace have no PID in common |
| Interleaving.InsertSucceeds | backend/memory/memory_resources.go:62-126 | a successful insertion by one thread keeps every other thread's knowledge valid |
| Interleaving.PidsUnchanged | backend/memory/memory_resources.go:142-171 | no other operation adds or removes a PID |
| Interleaving.AllocationIsRun | service/resources.go:191-245 | the retry protocol of one request is a run of its thread with nothing in between |
| Interleaving.RequestIsRun | service/resources.go:61-132 | the same from the arrival of the request on, empty batches and missing namespaces included |
| Interleaving.OthersApplied | backend/memory/memory.go:17-38 | operations that create no resource change the store as they do with no request in flight |
| Filter.Filter | internal/filter/filter.go:20-110 | for every getter that comes to an end and every schedule of producer and consumer: no deadlock, termination, and the answer is the slice and the count of the values kept, or the error that came first |
| Filter.FilterIsSelect | internal/filter/filter.go:10-19 | for every page size it equals filtering the whole list and slicing the result |
| Filter.FirstErrorWins | internal/filter/filter.go:32-44 | the first error in stream order decides, and only an error makes the answer one |
| Filter.StreamShape | internal/filter/filter.go:81-110 | the stream is the whole list, or the list up to the first failing page and then its failure |
| Options.InternalPageLimit | service/options.go:40-47 | the default, or the maximum where that is smaller; so at least 1 and within the maximum where there is one |
| Options.WithValidValues | service/options.go:74-107 | raises each field to its least usable value and leaves usable limits alone |
| Credentials.CleanupUser | service/credentials.go:342-380 | terminates for every page size and leaves exactly the keys valid at the given time, although it deletes while paging: those without expiry, and those whose expiry is not the zero time and lies later |
| Credentials.ValidUntilExpiry | api/credentials.go:247-252 | a key valid at a time is valid at every earlier time; without expiry it is always valid |
| Credentials.ValidityEnds | api/credentials.go:247-252 | a key that expires at e is valid just before e and not at e, except that the zero time is never valid |
| Credentials.CleanTwice | service/credentials.go:342-380 | cleaning up at a time and again later leaves what cleaning up later alone leaves |
| Credentials.RoundAdvances | service/credentials.go:361-378 | a round leaves only valid keys before the offset, brings the end nearer by the whole page, and ends only when no invalid key is left |
| Credentials.PageChecked | service/credentials.go:342-376 | after a page the remaining listing is the valid keys so far followed by what was behind the page |
| Credentials.CleanupExpiredKeys | service/credentials.go:296-340 | cleans up the users in listing order up to the first invalid username, a no-op in anonymous mode |
| Credentials.CleanupExact | service/credentials.go:296-340 | past all users, every user has exactly the keys valid at that time and nothing else has changed |
| Credentials.AllPrefixValid | service/credentials.go:325-329 | it gets past all users exactly when every stored username is valid |
| Credentials.ListValidKeys | service/credentials.go:122-171 | equals a plain filter of the full sorted list, cut to the page, for every internal page size |
| Credentials.CleanupInvisible | service/credentials.go:296-380 | listing the valid keys gives the same before and after a cleanup at that time, and afterwards is the full listing |
| Credentials.AuthenticateAPIKey | service/credentials.go:26-48 | logs in exactly as the owner of the key, while it is valid and the name is, never in anonymous mode or with an empty key |
| Credentials.CleanupKeepsLogins | service/credentials.go:296-380 | a cleanup at a time takes no login that is possible at that time or later, and adds none |
| Credentials.IssueAPIKey | service/credentials.go:222-277 | draws the first ids and keys of its generators; in every pair before the last the id is the user's already or the key somebody's, and the last decides, each error exactly in its case; on success the record has what was asked for and the raw key, drawn last, identifies it and its user and nobody else's; otherwise nothing changes |
| Mounts.GrantLoader.Next | service/mount_grants.go:93-143 | sends the user's compiled grants page by page, in order, ending with the first failure |
| Mounts.MountGrantMatches | service/mount_grants.go:67-86 | answers with the first match or error of that stream, stopping there |
| Mounts.AllCompiledGrants | service/mounts.go:92-104 | collects the whole stream or its error |
| Mounts.ListMounts | service/mounts.go:35-90 | the page of the sorted mounts the caller may see, for every internal page size |
| Paging.PagesJoin | backend/memory/memory_mounts.go:50-80 | going from page to page, of any size, shows the listing from its start, each element once and in order, and enough pages show all of it |
| Mounts.PathsAgree | service/mounts.go:43-104 | a mount is listed exactly when the separately written check accepts its base URI, and both mean that some stored grant matches; the listing succeeds exactly when every stored pattern compiles |
| Namespaces.ListNamespaces | service/namespaces.go:47-86 | equals a plain filter of the full sorted list, cut to the page; fails exactly for a stored invalid id |
| Namespaces.VisibleIffRole | server/namespaces.go:31-38 | an ordinary caller without a restricting key sees exactly the namespaces they hold a role in |
| Namespaces.EveryNamespaceShown | service/namespaces.go:28-54 | a superuser, and a caller who is not logged in, is shown every namespace with the tag |
| Namespaces.CreateNamespace | service/namespaces.go:122-178 | draws the first ids of its generator; every id before the last exists already and the last decides, each error exactly in its case; the namespace stored has the id drawn last and what was asked for, and the caller manages it; otherwise nothing changes |
| Access.OrdinaryRunKeepsManagers | server/roles.go:48-90 | over every run of requests of ordinary users, one at a time, each namespace that had a manager has one, each that had a manager with an account has one, and no superuser flag or account changes |
| Access.OrdinaryRequestKeeps | api/scopes.go:91-121 | after one request of an ordinary caller each manager still is one, or the caller is, and no account or superuser flag has changed |
| Access.RoleRequestKeeps | server/roles.go:48-90 | a role request of an ordinary caller keeps a manager in every namespace and never changes the caller's own role |
| Access.RoleScopesNeed | api/scopes_namespace.go:144-175 | short of a superuser, only a manager passes the role scopes, and only for somebody else |
| Access.ScopesMonotone | api/scopes.go:91-121 | a higher role, superuser rights or an unrestricted login never lose a scope |
| Permissions.NamespaceScopesOpenTo | api/scopes_namespace.go:83-235 | exactly which namespace scopes each kind of caller passes without a restricting key |
| Permissions.ScopesInAnonymousMode | api/scopes_namespace.go:83-235 | exactly which namespace scopes pass in anonymous mode, whoever calls |
| Permissions.UserScopesOpenTo | api/scopes_user.go:92-277 | the same for the user scopes |
| Permissions.KeysNarrow | api/credentials.go:229-280 | a key opens nothing its user could not do without it, and only what it lists; with scopes of one kind only, none of the other |
| Permissions.NoRoleNoChange | api/scopes_namespace.go:83-235 | without a role an ordinary caller changes nothing with a request in a namespace |
| Permissions.ContributorOnlyAdds | api/scopes_namespace.go:83-235 | a contributor alters no stored record and not the namespace |
| Permissions.EditorKeepsNamespace | api/scopes_namespace.go:83-235 | an editor leaves the namespace as it was |
| Permissions.RolesSuffice | api/scopes_namespace.go:83-235 | each role does reach its own operations |
| Permissions.MountsNeedGrants | server/mounts.go:17-42 | a login without a restricting key changes a mount exactly where a stored grant of the user matches, a superuser anywhere |
| Permissions.UserRequestsServed | api/scopes_user.go:92-277 | which requests outside namespaces take effect: everybody's own, and accounts and grants for superusers |
| Permissions.AnonymousRequests | server/internal/lowlevel/handle.go:259-275 | in anonymous mode anybody changes namespaces, resources and mounts, and nothing else |
| Permissions.OwnAccountUntouched | service/user.go:64-67 | nobody changes or deletes their own account |
| Permissions.SharedNamespace | server/roles.go:48-90 | a run that takes effect: an owner creates a namespace and admits a guest, who creates a resource in it |
| Access.WriteKeepsManagerIff | backend/memory/memory_roles.go:30-81 | a write leaves a namespace managed exactly when it writes manager or another manager exists |
| Access.CheckThenRunLosesManagers | server/internal/lowlevel/handle.go:182-219 | with check and change apart, two managers removing each other leave none |
| RoleRaces.ServedIsCheckThenWrite | server/internal/lowlevel/handle.go:203-208 | check and change with nothing in between are the request served as one step |
| RoleRaces.RequestAlone | server/internal/lowlevel/handle.go:203-208 | so the two steps of a request that runs alone serve it |
| RoleRaces.ManagedThroughoutIff | server/internal/lowlevel/handle.go:182-219 | for every interleaving of checks and changes, a namespace stays managed throughout exactly when no change lowers its last manager when written |
| RoleRaces.OneEachKeepsManagers | server/internal/lowlevel/handle.go:182-219 | while never two changes to one namespace are approved and unwritten at once, ordinary callers' requests keep every namespace managed |
| Access.Server.Check | server/internal/lowlevel/handle.go:264-297 | the check as a function of the current state |
| Access.Server.SetNamespaceRole | service/roles.go:68-88 | the handler equals check, then validated write, with the service's error codes |
| Access.Server.RemoveNamespaceRole | service/roles.go:97-111 | the handler equals check, then deletion |
| Access.OrdinaryOps | api/scopes_user.go:92-277 | no ordinary caller, authenticated or anonymous, reaches an operation on accounts or grants |
| Bitstring.SpotCounts | internal/bitstring/bitstring.go:30-59 | after k bits, k == (n-2)*2^n + 2 + i*n + pos with i below 2^n and pos below n |
| Bitstring.EveryStringOnce | internal/bitstring/bitstring.go:10-16 | every bit of every binary string stands at its closed-form position and nowhere else |
| Bitstring.StringBits | internal/bitstring/bitstring.go:10-16 | the n bits that start at string i of length n read as the number i |
| Bitstring.Reader.NextBit | internal/bitstring/bitstring.go:41-59 | yields the bit of the current spot and advances by one |
| Bitstring.Reader.Read | internal/bitstring/bitstring.go:61-70 | packs the next bits into bytes, most significant first |
| Bitstring.ReadsSplit | internal/bitstring/bitstring.go:61-70 | splitting a read into several gives the same bytes |
| Bitstring.BitsFit | internal/bitstring/bitstring.go:63-67 | eight bits fit in the byte they are shifted into |

## Left out

- SQL storage (backend/gorm), commands and process set-up, HTTP routing, JSON and log output.
- Hashing, password checks, regular expressions and UUIDs: the digest and the compiled pattern are arbitrary functions, a failed compilation included; stored passwords are opaque strings.
- The random source: an arbitrary stream of 64-bit words, each read filling the buffer or failing.
- The runtime that proposes candidate ids: an arbitrary generator. The resource count passed to it is modelled, but not how it chooses; in the interleaving model the candidates are arbitrary, so the counting query does not appear there.
- Clocks: one time per operation.
- Context cancellation, goroutine lifetime and shutdown. When the consumer of a filter stops at an error, the producer left behind is not modelled.
- Changes to the listed collection by other requests while one request pages through it; a page getter is a function of limit and offset. Cleanup's own deletions are modelled.
- Changes to the service's limits while requests are in flight: the interleaving model has one attempt limit.
- Memory.MemoryBackend.ListKeys: lists one user's keys; the listing of all users' keys at once, which the service uses only to count them for the generator, is not modelled, because the code does not fix its order among equal ids.
- Filter.Filter: a getter that answers with full pages for ever, for which the code never returns, is not covered.
- ListNamespaceRoles, ListUserRoles, ListNamespaceMounts, AutocompleteUsers, GetMount: further lookups and listings of the same shape.
- Logging in with a password, sessions and impersonation: calls carry the effective user, and the key they came with.
- Memory.MemoryBackend.SetNamespaceRole: does not check that the user exists, as the code does not, so role entries may name unknown users.
- Paging.Slice: adds offset and limit as unbounded integers, so an overflow of their sum is not modelled.
- Bitstring.Reader.Read: bytes are numbers below 256 and big integers are unbounded ones.
- Scopes.UserDefinitionOf: covers the user scopes of endpoints that change stored state and of impersonation; those of listings would only add rows.
