# Verified models of requests-native

This project models the parts of requests-native where the Python `requests` API and the native transport
have to be kept in step, together with the text and graph algorithms around them, and proves what those
parts promise: over every input, every interleaving or every run. `dafny verify dfyconfig.toml` checks all of it.

- `HeapProof` and `HeapModes`: behaviour snapshots of a cyclic Python object graph and the later check that nothing changed.
  A proof is accepted if and only if every recorded field of every visited object still holds the same object,
  and every followed path from the root was visited; what is opened as a mapping is said on the heap alone.
- `OwnerProtocol`: owner accesses, transitions and adapter registrations under one lock. A registration commits
  if and only if nothing interfered with its reservation; the registry dictionaries refine the protocol.
- `SideTable`, `TableRuns`, `TableLru` and `AdapterTable`: the adapter side table with reusable ids, as operations that read, work
  unlocked and commit. Epochs name incarnations, live adapters are never reaped, pools are conserved, realms
  hold the last keys admitted; the `expect` on a missing candidate can fail, and exactly when is stated.
  `AdapterTable.Table` is the dictionary itself.
- `PoolRealm`: the LRU map and deque of one realm, equal to the last `c` distinct keys used.
- `Redirects` and `Mounting`: the redirect engine with histories and the Authorization header, and
  longest-prefix routing.
- `DecodedReader`, `WireBody` and `Permits`: buffered reads over a streaming decoder and over wire frames, and the
  permits of a blocking pool through every exit path.
- `DigestTarget`, `Digest` and `DigestText`: the native two-phase Digest computation against the Python method, and
  the header both write, spelled out.
- `Requote`, `IterLines`, `ContentLength`: requoting of URIs, line splitting over chunks, and lengths beyond 64 bits.
- `DependencyClosure`: the two dependency closures of the release scripts and the rendered graph.

Loops and objects of the source are methods and classes, tied by their contracts to functions and predicates;
protocols are state machines over events, each of which is one block under the source's lock. A run is any
sequence of events, so statements about runs hold for every interleaving.

Where the code falls short of a promise, the model keeps the code, states the exact condition and exhibits a failing input:

| the promise holds exactly when | stated by | a failing input |
|---|---|---|
| requoting keeps a URI's meaning when no stray '%' fuses, or without a valid escape on the fallback | `RequoteKeepsMeaning` | `IllFormedCounterexample` (`%%341`), `FallbackCounterexample` (`%zz%41`) |
| requoting is idempotent when no stray '%' comes to look like an escape | `RequoteIdempotent` | `IllFormedCounterexample` |
| lines do not depend on the chunks when no boundary separates "\r" from "\n" | `Lines` | `SeparatedCounterexample` |
| the k-th answer to a nonce carries k when calls without a header left no trace or made up for each other | `CountRightIff` | `DisturbedCounterexample` (qop `auth-int`) |
| the native Digest call equals the Python method when the 32-bit count does not overflow | `TrialRefines` | `OverflowCounterexample`, `OverflowIsReachable` |
| an admission finds its candidate when fewer than c other keys came since the last use | `PanicsIffCrowdedOut`, `AdmissionPanics` | `PanicIsReachable` |
| a finished body has given its permit back, unless a blocking read finished it and nothing followed | `FinishedAndHolding` | `FinishedHoldingIsReachable` |
| a snapshot notices a change when it is to a recorded field; a member that a descriptor gains is none | `AcceptedIffUnchanged` | `AddedMemberIsNotNoticed` |

## Model

| member | source | states |
|---|---|---|
| `HeapProof.Snapshot` | crates/requests-python/src/adapters.rs:843-899 | the walk records its object, marks it visited and never forgets or re-opens a visited one; with its companions it terminates on cyclic graphs |
| `HeapProof.SnapshotValues` | crates/requests-python/src/adapters.rs:2101-2126 | every value of a mapping gets a proof and is visited; `OpenedInTurn` and `OpenedAsMapping` say which are opened as mappings |
| `HeapProof.SnapshotExact` | crates/requests-python/src/adapters.rs:843-993 | from any visited set, what the walk adds leads only to visited objects, and its proof is accepted in another heap exactly when the added objects kept their recorded fields |
| `HeapProof.AcceptedIffUnchanged` | crates/requests-python/src/adapters.rs:939-993 | verification accepts a proof if and only if every recorded field of every visited object holds the same object |
| `HeapProof.AcceptedPinsEveryPath` | crates/requests-python/src/adapters.rs:604-993 | if it accepts, every object on every followed path from the root was visited and kept its fields, shared and cyclic ones included |
| `HeapProof.UnchangedIsAccepted` | crates/requests-python/src/adapters.rs:2206-2232 | on an unchanged heap verification always accepts |
| `HeapProof.CallableMeaning` | crates/requests-python/src/adapters.rs:652-720 | the checks of a callable together pin code, defaults, keyword defaults, closure cells with contents, attributes and annotations, and nothing more |
| `HeapProof.ClassDictMeaning` | crates/requests-python/src/adapters.rs:755-820 | a class dictionary is accepted exactly when all entries are the same up to one extra empty `__slotnames__` or `__annotations__` |
| `HeapProof.AddedMemberIsNotNoticed` | crates/requests-python/src/adapters.rs:881-894 | a descriptor that gains a member after the snapshot is still accepted |
| `HeapModes.OpenedInTurn` | crates/requests-python/src/adapters.rs:2101-2126 | a value that has items and was not visited when its turn came is opened as a mapping |
| `HeapModes.OpenedAsMapping` | crates/requests-python/src/adapters.rs:2101-2126 | only values with items are opened as mappings, and every one that no visited object leads to in another way is |
| `HeapModes.ValuesPinned` | crates/requests-python/src/adapters.rs:2188-2222 | an accepted proof means that such a value still has the items it had |
| `HeapModes.NestedChangeIsNoticed` | crates/requests-python/src/adapters.rs:604-650 | a change inside a dictionary that is an attribute of a function is refused |
| `HeapModes.VisitedNext` | crates/requests-python/src/adapters.rs:604-899 | field by field, what the walk visits from a function, a partial, a class or a descriptor, the four member names included |
| `HeapModes.AcceptedPins` | crates/requests-python/src/adapters.rs:652-993 | field by field, what an accepted proof pins of each of them |
| `OwnerProtocol.ReservationExclusive` | src/requests/_rust_public.py:281-368 | a registration that began commits if and only if no access or transition entry, admission, other registration attempt or fork interfered and no access open at its begin was left; meanwhile no transition is open and only the registrant's own accesses, at their starting depth |
| `OwnerProtocol.InterferenceSpoils` | src/requests/_rust_public.py:65-128 | the first interference makes the reservation uncommittable for the rest of the run |
| `OwnerProtocol.ReachableInv` | src/requests/_rust_public.py:281-309 | in every run reservation tokens and epochs are issued in order, so a new epoch differs from the reserved one |
| `OwnerProtocol.EpochsOfReservations` | src/requests/_rust_public.py:281-368 | in every run epochs are kept for outstanding reservations and for nothing else |
| `OwnerProtocol.EntriesInstalled` | src/requests/_rust_public.py:223-368 | in every run the registry holds under a key exactly the entry of the last commit that found its reservation standing and brought one, unless since then the process forked or that entry's own reference was closed or failed to commit |
| `OwnerProtocol.PeriodTokens` | src/requests/_rust_public.py:97-128 | in each period of overlapping transitions, still open or ended in any way, exactly one token is `first`, its opener's; only a transition exit or a fork ends it; an exit is `quiescent` exactly when it ends the period and no access is open |
| `OwnerProtocol.BracketedContexts` | src/requests/_rust_public.py:73-128 | in a well-bracketed run the open contexts equal entries minus exits since the last fork |
| `OwnerProtocol.ExitFindsContext` | src/requests/_rust_public.py:117-120 | in a well-bracketed run "owner transition state was lost" is never raised |
| `OwnerProtocol.EnterContext` | src/requests/_rust_public.py:108-110 | the nested counts keep representing the open contexts, without zero counts or empty dictionaries |
| `OwnerProtocol.LeaveContext` | src/requests/_rust_public.py:118-128 | leaving keeps that, reports a missing context exactly when there is none, and notices the last to leave |
| `OwnerProtocol.Baseline` | src/requests/_rust_public.py:345-349 | own depth and number of threads together say that the only open accesses are the registrant's |
| `OwnerProtocol.OwnerRegistry.EnterAccess` | src/requests/_rust_public.py:73-79 | refines the access entry event; yields allowed exactly when no transition and no reservation is there |
| `OwnerProtocol.OwnerRegistry.ExitAccess` | src/requests/_rust_public.py:86-94 | refines the access exit event |
| `OwnerProtocol.OwnerRegistry.EnterTransition` | src/requests/_rust_public.py:105-110 | refines the transition entry event; the token is `first` exactly when none was open |
| `OwnerProtocol.OwnerRegistry.ExitTransition` | src/requests/_rust_public.py:117-128 | refines the transition exit event; lost exactly when no such transition is open; quiescent exactly when nothing is left |
| `OwnerProtocol.OwnerRegistry.BeginRegistration` | src/requests/_rust_public.py:281-300 | reserves exactly when no reservation, no transition and no foreign access is there, with this thread's own depth, and disturbs an existing reservation |
| `OwnerProtocol.OwnerRegistry.ClearRegistration` | src/requests/_rust_public.py:303-309 | withdraws only this reservation |
| `OwnerProtocol.OwnerRegistry.CommitRegistration` | src/requests/_rust_public.py:343-364 | installs the entry and ends the reservation exactly when that still stands, and otherwise forgets only its own reference |
| `OwnerProtocol.OwnerRegistry.Admit` | src/requests/_rust_public.py:394-397 | an admission during a registration is denied and recorded as activity |
| `OwnerProtocol.OwnerRegistry.CloseReference` | src/requests/_rust_public.py:223-230 | forgets only the entry of this very weak reference |
| `OwnerProtocol.OwnerRegistry.ResetAfterFork` | src/requests/_rust_public.py:131-153 | a forked child starts from empty tables |
| `SideTable.EpochNamesIncarnation` | crates/requests-python/src/adapters.rs:1988-1990 | within a process an epoch seen again belongs to the very entry that was read: same id, adapter and manager, counters that only grew, proofs and realms unchanged when their counters are |
| `SideTable.ReachableCounters` | crates/requests-python/src/adapters.rs:2930-2950 | in every run the epochs in the table are distinct and already issued |
| `SideTable.RecordReplacesWhatItRead` | crates/requests-python/src/adapters.rs:3102-3181 | a record commit replaces exactly the revision it read, so no update is lost or applied twice |
| `SideTable.CloseActsOnWhatItRead` | crates/requests-python/src/adapters.rs:4383-4417 | a close whose counters match closes the unchanged entry it read, and its further comparisons cannot fail |
| `TableRuns.EntriesRegistered` | crates/requests-python/src/adapters.rs:2930-3292 | in every run the table holds under an id the entry of exactly that weak reference which was registered there and since then not dropped by id or by itself, reaped, replaced or lost in a fork |
| `TableRuns.CloseIffUnchanged` | crates/requests-python/src/adapters.rs:4383-4417 | a close goes through if and only if the entry it read is still there, unchanged in every part |
| `TableRuns.RecordIffUnchanged` | crates/requests-python/src/adapters.rs:3102-3181 | a record goes through if and only if incarnation and revision are still those it read |
| `TableRuns.AdmissionStaysInside` | crates/requests-python/src/adapters.rs:3342-3387 | an admission changes nothing but one realm and the counter of the incarnation it was prepared for |
| `TableRuns.RegistrationWrites` | crates/requests-python/src/adapters.rs:2930-2952 | a registration writes a fresh incarnation with the proofs it was given |
| `TableRuns.RecordWrites` | crates/requests-python/src/adapters.rs:3102-3181 | a record writes what it was given and raises the revision by one, or nothing |
| `TableRuns.CloseWrites` | crates/requests-python/src/adapters.rs:4417-4436 | a close empties the realms, refreshes the recorded pools and starts a new incarnation, or nothing |
| `SideTable.LiveNeverReaped` | crates/requests-python/src/adapters.rs:3250-3292 | a reap never removes the entry of a live adapter, however ids were reused in between |
| `SideTable.PoolConservation` | crates/requests-python/src/adapters.rs:3186-3248 | in every reachable state each pool ever inserted is, exactly once, in a slot of the table, listed for clearing, cleared, or left to a thread a fork did not carry over; so once it left the table and its own clearing is done it was cleared exactly once, although removals list one clearing per slot and admissions one per eviction |
| `SideTable.DrainedOnce` | crates/requests-python/src/adapters.rs:3186-3248 | what a removal lists for clearing, one occurrence per slot, has every removed pool once |
| `SideTable.AdmitEntry` | crates/requests-python/src/adapters.rs:3356-3382 | an admission moves exactly the evicted pools out of the entry, each listed once, and on a miss with room the candidate in |
| `SideTable.AdmissionPanics` | crates/requests-python/src/adapters.rs:3356-3363 | the `expect` on the candidate fails exactly when the first half hit, the second misses and the entry is the same incarnation |
| `TableLru.LruInRuns` | crates/requests-python/src/adapters.rs:3342-3387 | in every run, a realm that its incarnation admitted to with one capacity c only, zero included, holds exactly the last c distinct keys admitted to it since that incarnation began, whatever other entries, realms and incarnations do |
| `TableLru.PanicsIffCrowdedOut` | crates/requests-python/src/adapters.rs:3294-3363 | in every run, an admission that hit in its first half, on an entry that is still the same incarnation and admitted to the realm with one capacity c, panics exactly when at least c distinct other keys were admitted to the realm since the last use of its key |
| `SideTable.PanicIsReachable` | crates/requests-python/src/adapters.rs:3294-3363 | five events from the empty table reach that panic |
| `AdapterTable.Table.RegisterAdapter` | crates/requests-python/src/adapters.rs:2930-2952 | refines the registration event and hands back the entry it replaced |
| `AdapterTable.Table.DropEntry` | crates/requests-python/src/adapters.rs:3186-3200 | refines the drop event and hands back what it removed |
| `AdapterTable.Table.DropReferenced` | crates/requests-python/src/adapters.rs:3202-3227 | removes only the entry made for this weak reference |
| `AdapterTable.RemoveDead` | crates/requests-python/src/adapters.rs:3275-3287 | the loop removes exactly the candidates whose incarnation is still there, each once |
| `AdapterTable.Table.ReapDead` | crates/requests-python/src/adapters.rs:3271-3292 | refines the reap event |
| `AdapterTable.Table.AdmitLocked` | crates/requests-python/src/adapters.rs:3342-3387 | refines the admission event on the mutable map and deque, panic included; hands out the pool resident under the key or else the candidate, which the table holds there afterwards if there is any room, and lists for clearing exactly the pools that left, each once |
| `AdapterTable.Table.RecordLocked` | crates/requests-python/src/adapters.rs:3102-3131 | refines the record event; succeeds exactly when epoch, manager, revision and proxy managers still match |
| `AdapterTable.Table.CloseLocked` | crates/requests-python/src/adapters.rs:4380-4436 | refines the close event and takes the realms exactly when it commits |
| `AdapterTable.Table.ResetAfterFork` | crates/requests-python/src/adapters.rs:225-245 | refines the fork event and hands back the inherited entries |
| `PoolRealm.MutableRealm.MakeRoom` | crates/requests-python/src/adapters.rs:3364-3371 | the eviction loop pops least recently used keys until there is room |
| `PoolRealm.MutableRealm.AdmitPool` | crates/requests-python/src/adapters.rs:3360-3382 | map and deque after an admission, with the evicted pools, each listed once where every slot has its own pool |
| `PoolRealm.AdmitHandsOut` | crates/requests-python/src/adapters.rs:3360-3382 | an admission hands out the pool held under the key, or else the candidate, and gives no other key another pool |
| `PoolRealm.LruRefinement` | crates/requests-python/src/adapters.rs:3356-3382 | after any sequence of admissions with capacity c the deque is the last c distinct keys used, oldest first, without repetition, and the map has the same keys |
| `PoolRealm.ResidentIffRecent` | crates/requests-python/src/adapters.rs:3356-3382 | a key is resident exactly when fewer than c distinct keys were used since its last use |
| `Redirects.HopKeeps` | src/requests/sessions.py:166-201 | one hop keeps the header exactly when the origin stays, or http on 80 becomes https on 443 on the same host |
| `Redirects.ChainKeeps` | src/requests/sessions.py:349-360 | over a whole chain the header survives exactly when all requests stay on one origin, up to at most one such upgrade |
| `Redirects.SendOnce` | src/requests/sessions.py:873-880 | the nested send without redirects writes an empty history, and refuses exactly when no redirect is allowed |
| `Redirects.ResolveRedirects` | src/requests/sessions.py:203-335 | for any server at most `max_redirects` follow-up requests; every response but the last holds exactly the responses before it |
| `Redirects.Send` | src/requests/sessions.py:854-883 | every response ends with exactly the earlier ones as history, TooManyRedirects exactly at the limit, each request goes where the answer before it pointed, and carries the header exactly when it survived so far |
| `Mounting.Session.MountAdapter` | src/requests/sessions.py:975-979 | assigning and moving shorter prefixes behind, one by one, yields the reordered dictionary |
| `Mounting.Session.GetAdapter` | src/requests/sessions.py:947-952 | the first match in dictionary order |
| `Mounting.MountAllSorted` | src/requests/sessions.py:975-979 | after any mounts and re-mounts prefixes are unique and in order of non-increasing length |
| `Mounting.TiesByFirstMount` | src/requests/sessions.py:975-979 | prefixes of one length stay in the order in which they were first mounted, whatever is mounted again |
| `Mounting.MatchesMeaning` | src/requests/sessions.py:947-952 | a URL matches a prefix character by character, up to the case of letters |
| `Mounting.LongestPrefixRouting` | src/requests/sessions.py:947-979 | `get_adapter` fails exactly when no mounted prefix matches, and otherwise returns the adapter last mounted on the longest matching prefix, of several that differ in case only on the one first mounted |
| `DecodedReader.Raw.Fill` | crates/requests-python/src/adapters.rs:4655-4715 | decoding fills the buffer to what is wanted or to the end, loses or reorders nothing, and with a decoder that honours its maximum never holds more than wanted before the end |
| `DecodedReader.Raw.Read` | crates/requests-python/src/adapters.rs:4749-4785 | a read returns the next bytes of the fully decoded body, fewer than asked only at its end; closed stays closed; completing the encoded wire body after a short read never finds a body to complete; it closes exactly at the end of the decoder |
| `DecodedReader.Raw.Close` | crates/requests-python/src/adapters.rs:4947-4971 | closing leaves nothing to read |
| `DecodedReader.ReadsPartition` | crates/requests-python/src/adapters.rs:4749-4785 | any sequence of read sizes partitions a prefix of the decoded body, and a short piece means the body is complete |
| `DecodedReader.ReadSizes` | crates/requests-python/src/adapters.rs:4749-4785 | reads of any sizes, made one after the other on the object, return exactly those pieces, and what they return and what is left make up the content |
| `DecodedReader.PassThroughStreams` | crates/requests-python/src/adapters.rs:4655-4715 | the decoder contract is met by a bounded identity decoder |
| `WireBody.NextFrame` | crates/requests/src/blocking.rs:721-729 | empty frames are skipped; the first other answer is returned |
| `WireBody.ResponseBody.Read` | crates/requests/src/blocking.rs:698-767 | a blocking read returns what is at hand up to its size, zero bytes only at the end, and an error exactly when nothing but one is left; it finishes the body exactly when nothing was left, or when it takes all that is at hand and the body ends there, as at the declared length of a body that is not encoded |
| `WireBody.ResponseBody.ReadAsync` | crates/requests/src/blocking.rs:813-857 | an asynchronous read loses and reorders nothing, never returns more than asked, is short only at the end, takes one frame at most when it is not to fill, reports a delayed error once, and says exactly when the body is finished |
| `WireBody.ResponseBody.Collect` | crates/requests/src/blocking.rs:854-903 | the polling loop keeps collected and remaining bytes together equal to the whole, stops after one frame when it is not to fill, and finishes the body exactly at its end or declared length |
| `WireBody.ResponseBody.FinishIfBufferEmpty` | crates/requests/src/blocking.rs:775-788 | finishes the body exactly when nothing is buffered and the declared length is reached, encoded only if allowed; this changes neither the remaining bytes nor a pending error |
| `Permits.PermitConservation` | crates/requests/src/adapters.rs:52-101 | free permits and those held by sends, responses and bodies add up to the pool size; a send waits exactly when all are held; each permit is released exactly once, and never while held |
| `Permits.HeldIff` | crates/requests/src/adapters.rs:52-187 | in every run a permit is held if and only if it was acquired and no event since then gave it back, each such event listed |
| `Permits.UnfinishedHolds` | crates/requests/src/adapters.rs:129-187 | in every run an unfinished body has its permit |
| `Permits.FinishedAndHolding` | crates/requests/src/adapters.rs:129-187 | a finished body still holds its permit if and only if a blocking read that returned bytes or an error finished it and nothing but reads into empty buffers followed |
| `Permits.FinishedHoldingIsReachable` | crates/requests/src/adapters.rs:129-137 | with the objects: reading all bytes of an unencoded body of declared length leaves it finished with its permit, so counting only unfinished bodies would miss one; its life is a run of the protocol |
| `Permits.AdapterResponseBody.ReadInto` | crates/requests/src/adapters.rs:129-137 | releases exactly on an empty read into a buffer that is not empty, and says from the state before when the body is finished and still holds its permit |
| `Permits.AdapterResponseBody.ReadOwned` | crates/requests/src/adapters.rs:140-166 | after a read that went well the body has its permit exactly when it had it before and is not finished; after an error it is gone |
| `Permits.AdapterResponseBody.FinishEncodedDeclaredLength` | crates/requests/src/adapters.rs:168-173 | releases exactly when the body is finished |
| `Permits.AdapterResponseBody.Close` | crates/requests/src/adapters.rs:175-186 | releases what is still held, once |
| `Permits.ReadToEnd` | crates/requests/src/adapters.rs:129-137 | blocking reads to the end deliver every byte and give the permit back unless they end in an error |
| `DigestTarget.TargetsAgree` | crates/requests/src/auth.rs:233-283 | any target the native code accepts is the path and query `urlparse` yields |
| `DigestTarget.PlainAccepted` | crates/requests/src/auth.rs:233-283 | a URL without query, fragment and parameters is accepted, with its path as target, as soon as the strict parser reports that path |
| `DigestTarget.PythonText` | src/requests/auth.py:213-217 | what `urlsplit` leaves between authority and fragment, line breaks and tabs removed |
| `DigestTarget.PythonTargetWritten` | src/requests/auth.py:213-217 | the target of an http URL in parts: the path without parameters or "/", and the query unless it is empty |
| `DigestTarget.ParamsWritten` | src/requests/auth.py:213-217 | the parameters of a path start at the first ';' of its last segment |
| `DigestTarget.OtherSchemeWritten` | src/requests/auth.py:213-217 | for any scheme, parameters are left out exactly if `urlparse` knows them for it |
| `DigestTarget.SameCut` | crates/requests/src/auth.rs:268-277 | both cut parameters off the last path segment at the same place |
| `Digest.ThreadLocal.BuildDigestHeader` | src/requests/auth.py:157-266 | outcome and new state are those of section 3.4 of RFC 7616 with the counting of the class, exceptions included |
| `Digest.ThreadLocal.DigestTrial` | crates/requests-python/src/auth.rs:453-563 | the native call with its fallbacks: the count is written before the callbacks, the nonce only with a header |
| `Digest.FinishIsReference` | crates/requests/src/auth.rs:157-229 | finishing a plan yields the reference header for its count and path, and only then adopts the nonce |
| `Digest.SameAlgorithm` | crates/requests/src/auth.rs:286-296 | both sides select the same hash, session variant or none |
| `Digest.TrialRefines` | crates/requests-python/src/auth.rs:521-557 | header, exceptions and state equal those of the Python method if and only if the 32-bit count does not overflow |
| `Digest.NativeRunAgrees` | crates/requests-python/src/auth.rs:453-563 | over whole runs, the first 2^32-1 native calls of a thread answer and leave behind exactly what the Python method would |
| `Digest.NonceCounts` | src/requests/auth.py:224-240 | in a run where every call yields a header or leaves the state alone, the k-th answer in a row to one nonce carries count k |
| `Digest.CountIsTally` | src/requests/auth.py:224-253 | in every run the next count is one more than a tally that a call without a header increments for its own nonce and sets back to one for another |
| `Digest.CountRightIff` | src/requests/auth.py:224-253 | in every run a header carries that count, and it is k for the k-th answer in a row to its nonce if and only if no call without a header was for that nonce or wiped answers out, or those after the last wipe make up for it |
| `Digest.DisturbedCounterexample` | src/requests/auth.py:246-253 | with a challenge for `auth-int` alone in between, the second answer to a nonce carries count 3 |
| `Digest.OverflowCounts` | crates/requests/src/auth.rs:157-229 | at the end of the 32 bits the native call counts and writes 0 where the Python method counts and writes 2^32 |
| `Digest.OverflowIsReachable` | crates/requests-python/src/auth.rs:521-557 | any call the native code answers, made 2^32 times on one thread, gets there, so the bound of `NativeRunAgrees` is exact |
| `Digest.OverflowCounterexample` | crates/requests-python/src/auth.rs:521-557 | a library and a call for which the two headers differ in length |
| `DigestText.ReferenceWritten` | src/requests/auth.py:157-266 | the answer for every challenge and state, spelled out with the library functions, literal text and concatenation: hash by name, A1, A2, response, count, cnonce, fields and quotes, and every refusal |
| `DigestText.Hex8Written` | src/requests/auth.py:228 | the `nc` text is the count in lower-case hexadecimal, eight digits while it has 32 bits, without needless zeros beyond |
| `DigestText.DecimalWritten` | src/requests/auth.py:229 | the count in the seed of the cnonce is written in decimal without leading zeros |
| `Requote.UnquoteUnreserved` | src/requests/utils.py:680-701 | splitting on '%' and rewriting parts equals scanning the string, InvalidURL included |
| `Requote.RequoteKeepsMeaning` | src/requests/utils.py:704-723 | the percent-decoded bytes are kept exactly when no stray '%' fuses with what follows, or, on the fallback, when there was no valid escape; the fallback decodes to the literal input |
| `Requote.RequoteIdempotent` | src/requests/utils.py:704-723 | requoting twice equals requoting once exactly when no stray '%' comes to look like an escape |
| `Requote.RequoteWellFormed` | src/requests/utils.py:704-723 | a well-formed URI keeps its meaning, has no escaped unreserved character left, and is a fixed point |
| `Requote.IllFormedCounterexample` | src/requests/utils.py:680-701 | `%%341` changes its meaning and is not stable |
| `Requote.FallbackCounterexample` | src/requests/utils.py:715-723 | `%zz%41` takes the fallback and comes to mean its own text |
| `Requote.InvalidIff` | src/requests/utils.py:685-699 | InvalidURL is raised exactly when some '%' is followed by two alphanumeric characters that are not both hexadecimal |
| `Requote.EscapeWritten` | src/requests/utils.py:685-699 | an escape is opened exactly when it is of a letter, a digit or one of "-._~" |
| `Requote.PlainUntouched` | src/requests/utils.py:713-719 | a text of unreserved and listed reserved characters is its own normal form |
| `Requote.OtherEscaped` | src/requests/utils.py:713-719 | any other ASCII character but '%' is escaped with two upper-case digits |
| `IterLines.Lines` | src/requests/models.py:1084-1106 | the lines are those of the pieces between chunk boundaries that separate "\r" from "\n"; `splitlines` of the whole has the same without the first line of every later piece, so they are equal exactly when there is no such boundary |
| `IterLines.SplitLinesWritten` | src/requests/models.py:1093-1096 | `splitlines` by five equations: line feed, carriage return and the two together each end one line |
| `IterLines.CutLines` | src/requests/models.py:1084-1106 | the line missing at each cut is an empty one |
| `IterLines.SeparatedCounterexample` | src/requests/models.py:1084-1106 | "\r" and "\n" in two chunks give two lines where `splitlines` gives one |
| `ContentLength.TrimOws` | crates/requests-python/src/adapters.rs:4002-4016 | blanks and tabs, and nothing else, are stripped at both ends until neither end has one |
| `ContentLength.IsChunked` | crates/requests-python/src/adapters.rs:3967-3974 | whether some Transfer-Encoding token is `chunked`, without regard to case |
| `ContentLength.TokensOfMeaning` | crates/requests-python/src/adapters.rs:3966-3990 | the tokens of a name are those of every header with this name in any case |
| `Prelude.SplitMeaning` | crates/requests-python/src/adapters.rs:3970-3985 | splitting at a separator gives parts without it that, put together, are the text |
| `ContentLength.ParseU64` | crates/requests-python/src/adapters.rs:3996-3999 | parsing fails exactly from 2^64 on |
| `ContentLength.CanonicalUnique` | crates/requests-python/src/adapters.rs:3985-3991 | digit strings without leading zeros are equal exactly when their numbers are |
| `ContentLength.OverflowingContentLength` | crates/requests-python/src/adapters.rs:3966-4000 | a result exactly when the body is not chunked and all length tokens, at least one, denote one number above 2^64-1; it is that number without leading zeros |
| `DependencyClosure.Closure` | scripts/generate_release_sbom.py:146-168 | exactly the reachable packages with exactly their edges, closed; an error names a reachable unknown package |
| `DependencyClosure.ReleaseGraph` | scripts/generate_release_sbom.py:131-172 | succeeds exactly on one root with everything reachable described; `required` is part of `included` and both are closures |
| `DependencyClosure.TargetsMeaning` | scripts/generate_release_sbom.py:155-171 | normal and build dependencies are followed for the release, normal ones only at run time |
| `DependencyClosure.RootsMeaning` | scripts/generate_release_sbom.py:135-142 | the roots are the packages of the project's own name without a source, one for each record |
| `DependencyClosure.PackagesMeaning` | scripts/generate_release_sbom.py:134-143 | the last record of an id counts |
| `DependencyClosure.RuntimeClosure` | scripts/generate_third_party_notices.py:300-310 | the second worklist computes the same closure over runtime edges |
| `DependencyClosure.RuntimePackages` | scripts/generate_third_party_notices.py:290-320 | succeeds exactly on complete runtime metadata, with exactly the reachable packages that have a source, each once |
| `DependencyClosure.ScriptsAgree` | scripts/generate_third_party_notices.py:290-320 | the notices list exactly the packages the SBOM marks required that have a source |
| `DependencyClosure.RenderLine` | scripts/generate_release_sbom.py:291-299 | a line lists exactly the references of the package's dependencies, without repetition and within the release |
| `DependencyClosure.RenderGraph` | scripts/generate_release_sbom.py:260-316 | refused exactly on incomplete metadata, shared references or shared purls; otherwise the document covers the release, each component with its own reference and purl |
| `DependencyClosure.ChecksPass` | scripts/generate_release_sbom.py:329-368 | the graph checks of `validate_sbom`, unique purls included, hold of what was rendered |

## Left out

- Retry counting and backoff, hook dispatch and the action bridge, exception mapping: not part of this model.
- TLS, proxy manager, timeout and urllib3 object checks: an operation that passes them is an event; one that fails them has no effect on the table.
- Attempt limits: the eight attempts of record and close are not counted; every attempt is an event of its own, so the theorems hold for any number of them.
- SideTable: runs are shorter than 2^64 events, within which the wrapping counters of the source do not repeat; `pool_connections` is a parameter of each admission; `LruInRuns` and `PanicsIffCrowdedOut` take it constant for one realm of one incarnation, and nothing is assumed of any other admission.
- PoolConservation: pools whose clearing a fork left to a thread of the parent process are set apart as abandoned, because that thread does not exist in the child.
- HeapProof: attributes are read without running Python code; an attribute access that raises during verification counts as a refusal. PyPy's exceptions for ABC caches are not modelled.
- OwnerProtocol: non-adapter owners, which register without a reservation, generations and weak reference callbacks are not modelled.
- Redirects: a URL is its scheme, host and port; joining relative locations, fragments, methods, bodies, cookies, netrc and hooks are not modelled. The server may answer each request in any way.
- DecodedReader: error-free runs with a bounded decoder, whose streaming contract is stated and shown to be satisfiable; unbounded decoders and `decode_content=False` are not modelled.
- WireBody: a transport never goes on after its declared length (`Honest`); deadlines and connection reuse are not modelled.
- Permits: the order in which waiting sends are served; a failed close is a close.
- Digest: hashes, encodings, upper-casing and the strict URL parser are parameters; the parser is assumed to report no raw line breaks or tabs, and "MD5" to be its own upper case. `urlsplit` errors for malformed authorities and values that are not strings are not modelled. The count wraps as in a build without overflow checks. `handle_401` is not modelled.
- Requote: ASCII input only.
- IterLines: bytes and no delimiter.
- Mounting: ASCII letters for the comparison without regard to case.
- DependencyClosure: lists the scripts sort come in an arbitrary order; component fields, checksums, licences and the path checks of `validate_sbom` are not modelled.
- CaseInsensitiveDict, status codes, cookies helpers, benchmarks and release plumbing: easy members or orchestration.
