# Verified models of the tolla consent service and its rust-openssl fork

tolla keeps users' consents in a store, runs one container per user, and lets a TLS proxy in each
container admit clients whose certificate names a purpose the user consented to. The proxy remembers an
admission for ten seconds. The repository also carries a fork of rust-openssl. This project models the parts
of both that hold state, and proves what they promise. `dafny verify dfyconfig.toml` checks everything.

| file | models |
|---|---|
| `LeaseTable.dfy` | the proxy's lease table: a slice shifted in place while an older header over it is ranged over |
| `Collection.dfy`, `ConsentEngine.dfy` | onboarding and deboarding as sequences of container and store calls, any of which may fail |
| `LeaseEndpoint.dfy` | the `/lease/` decision, with the decimal serial number on its way from Go to Rust |
| `LeaseProtocol.dfy` | store, endpoint, proxies and clock as one transition system |
| `LockingCallback.dfy` | the OpenSSL 1.0.x locking callback, interleaved at every access to shared state |
| `HostnameVerify.dfy` | wildcard and address matching of certificate names |
| `Extensions.dfy` | the extension collection: a vector with a hash index |
| `Hasher.dfy` | the streaming digest state machine, clones included |
| `Stack.dfy` | who owns the elements of an OpenSSL stack |
| `Bio.dfy` | retry flags, error slot and panic slot of a Rust stream under OpenSSL |
| `Crypter.dfy` | output buffers and C integer casts of the ciphers |
| `CallbackRegistry.dfy` | extra-data indices for closures, protocol lists and caller data |
| `ProtocolList.dfy`, `Joiners.dfy`, `BigNum.dfy` | three encodings and their inverses |
| `Casts.dfy`, `Wrappers.dfy` | truncating integer casts; `Option` |

## How the models are built

Each component has specification functions on plain values and, where the source updates something in place, a
class or method with the source's own statements that is proved to follow them. The theorems are about the
functions, so they hold of the classes. Answers of the outside world (a failing call, an allocator's index, the
bytes a foreign function writes) are parameters; a theorem about all parameters is about all behaviours.

Modelling choices a reader should know:

* A store call has three fates: done, lost (no effect, reported as an error) and unacknowledged (effect, but
  reported as an error). Inserting a duplicate `_id` never inserts; whether the driver reports it is left open.
* `view` and `views` are different collections, as in the source. Nothing ever writes `views`
  (`NothingWritesViews`), so from an empty store the second duplicate check of onboarding never fires; the
  container name is what stops a second onboarding. After a deboard that loses the container but fails at the
  store, a second onboarding can succeed over the first one's documents (`SuccessCanLeaveAStaleConsent`).
* `consent_by_serial_num` unwraps the result of its search. The handler holds the engine's mutex at that point,
  so a request for a serial number without a consent poisons the mutex and every later request crashes too. The
  protocol model includes this; `UnknownSerialStopsTheService` states its consequence, and
  `LostViewLeadsToPoison` and `StaleConsentLeadsToPoison` give runs from the empty store that end there.
* The direct consent message, which the source marks as not used, stores a consent with serial number 0. It is
  a step of the protocol, but not one of the operations whose crash consistency is proved:
  `DirectConsentNeedsAView` says when it keeps the invariant.
* The ten-second test of a lease is exact in nanoseconds. The clock of a proxy does not go back. Checking with
  the endpoint and recording the lease are one step, and handshakes of one proxy follow each other.
* The value of a certificate's intent extension is what decoding it yields, or a decoding error.
* A BIO flag word is the set of the positions of its one bits.
* A foreign digest call that fails leaves the digest context as it was.

## Model

| member | source | states |
|---|---|---|
| LeaseProtocol.AcceptedHandshakesAreBacked | mongodb/docker-alpine-mongo/proxy/main.go:109-168 | in every run, an accepted handshake goes back to one of the same proxy and certificate at most ten seconds earlier, at which the store held a consent with the proxy's serial for the certificate's intent |
| LeaseProtocol.LeasesAreJustified | mongodb/docker-alpine-mongo/proxy/main.go:161-166 | in every reachable state every lease of every proxy was recorded by such a granted handshake, at its start time |
| LeaseProtocol.HandshakeEffect | mongodb/docker-alpine-mongo/proxy/main.go:87-169 | a handshake leaves a certificate's lease as it was, drops it, or renews it now with a consent held; acceptance needs a live lease or a consent held |
| LeaseProtocol.AcceptsExactly | mongodb/docker-alpine-mongo/proxy/main.go:109-168 | with distinct serials, who presents a certificate is accepted if and only if its lease is at most 10,000,000,000 ns old, or endpoint and store answer and the store holds a consent with the proxy's serial for its intent |
| LeaseProtocol.RestartForgetsLeases | mongodb/docker-alpine-mongo/proxy/main.go:269-276 | after a proxy starts, its first accepted handshake needs a consent held now |
| LeaseProtocol.NoGrantsMeansNoAccessSoon | mongodb/docker-alpine-mongo/proxy/main.go:51-54 | if from some step on a certificate would not be granted, it is not accepted more than ten seconds after that step |
| LeaseProtocol.DeboardEndsAccessInTenSeconds | tolla/src/consent.rs:224-237 | after a successful deboard of the only consent with a serial, and while that serial is not issued again, no proxy with that serial accepts anybody later than ten seconds after |
| LeaseProtocol.WithdrawingFreesTheSerial | tolla/src/consent.rs:330-336 | a successful deboard leaves no consent with the user's serial number if and only if no other user's consent has it |
| LeaseProtocol.IdsStayUnique | tolla/src/consent.rs:206-237 | over every run of all steps, ids stay unique in both written collections |
| LeaseProtocol.GoneSerialMeansNoAccessSoon | mongodb/docker-alpine-mongo/proxy/main.go:109-168 | ten seconds after a serial number is gone from the store, and while it is not issued again, no proxy with it accepts anybody |
| LeaseProtocol.LeaseOrigin | mongodb/docker-alpine-mongo/proxy/main.go:161-166 | a lease after any step was there before or was granted by this step, now, with a consent held |
| LeaseProtocol.WithdrawnSerialStaysAway | tolla/src/consent.rs:448-452 | a serial number no consent has stays unused over any run that does not issue it again |
| LeaseProtocol.MessageIssuesZero | tolla/src/consent.rs:123-130 | the direct message brings serial 0 into use if and only if it is stored under a new id of an engine not poisoned |
| LeaseProtocol.TheBoundIsTight | mongodb/docker-alpine-mongo/proxy/main.go:51-54 | whatever happens to the store after a grant, the same handshake is accepted without the endpoint exactly up to ten seconds later |
| LeaseProtocol.PoisonedExactlyByUnknownSerials | tolla/src/consent.rs:259-263 | a step poisons the engine if and only if it asks a readable store for a serial number no consent has |
| LeaseProtocol.UnknownSerialStopsTheService | tolla/src/endpoints.rs:176-180 | after such a step the store never changes and after ten seconds no proxy accepts anybody |
| LeaseProtocol.TenantWithoutConsentPoisons | tolla/src/consent.rs:427-452 | for a newly issued serial number, the new tenant's first client poisons the engine if and only if its onboarding stored no consent, whatever the onboarding answered |
| LeaseProtocol.LostViewLeadsToPoison | tolla/src/consent.rs:429-437 | a run from the empty store: an onboarding that loses its view, then one handshake, poisons the engine |
| LeaseProtocol.StaleConsentLeadsToPoison | tolla/src/consent.rs:330-336 | a run from the empty store in which only the deboard fails: the second onboarding succeeds, and the tenant's first client poisons the engine if and only if the two serial numbers differ |
| LeaseTable.SelectIntent | mongodb/docker-alpine-mongo/proxy/main.go:91-107 | the three selection loops compute the last carrier of the flattened chains |
| LeaseTable.FindIntent | mongodb/docker-alpine-mongo/proxy/main.go:94-101 | the inner loop with its break finds the first extension with the wanted identifier |
| LeaseTable.LastCarrierIsCoherent | mongodb/docker-alpine-mongo/proxy/main.go:91-107 | the chosen certificate is the last that carries an intent, the extension that certificate's first; none is chosen if and only if none carries one |
| LeaseTable.ChoiceOnChains | mongodb/docker-alpine-mongo/proxy/main.go:91-107 | read off the chains: the choice is the last certificate, by chain and then position, with an extension 2.5.29.17, and its first such; none if and only if none has one |
| LeaseTable.SweepOfDistinct | mongodb/docker-alpine-mongo/proxy/main.go:109-117 | with one lease per certificate the range loop over the shifting slice never slices out of bounds, deletes at most one entry and removes exactly that certificate from the map |
| LeaseTable.SweepPanicsExactlyOnDuplicates | mongodb/docker-alpine-mongo/proxy/main.go:109-117 | over all tables, the loop slices out of bounds if and only if the last lease is an expired one of the certificate, there is another before it, and the loop, which skips the lease after each it deletes, comes across no live one |
| LeaseTable.SweepEnds | mongodb/docker-alpine-mongo/proxy/main.go:109-117 | from any point of the loop on, a panic and a live hit are both decided by the leases of the table the loop began with |
| LeaseTable.HandshakeAnswers | mongodb/docker-alpine-mongo/proxy/main.go:109-168 | accepted if and only if there is a lease at most 10,000,000,000 ns old or the intent is readable and permitted; malformed and denied likewise; the lease is kept, renewed now or gone accordingly |
| LeaseTable.HandshakeConcernsOneCertificate | mongodb/docker-alpine-mongo/proxy/main.go:105-168 | a handshake is accepted if and only if it leaves a live lease of the chosen certificate, and touches no other certificate's lease |
| LeaseTable.Proxy.constructor | mongodb/docker-alpine-mongo/proxy/main.go:269-276 | a new proxy has an empty table and its certificate's serial number |
| LeaseTable.Proxy.DropExpired | mongodb/docker-alpine-mongo/proxy/main.go:109-117 | the loop over the backing array does what the specification says, on any table, out-of-bounds slicing included |
| LeaseTable.Proxy.ShiftDown | mongodb/docker-alpine-mongo/proxy/main.go:114 | deleting by copying shifts the tail down and leaves the stale last cell |
| LeaseTable.Proxy.Append | mongodb/docker-alpine-mongo/proxy/main.go:166 | appending keeps the leases in order, in the same or a larger array |
| LeaseTable.Proxy.VerifyPeerCertificate | mongodb/docker-alpine-mongo/proxy/main.go:87-169 | on every exit the table has one lease per certificate again, and table, answer and question are those of the map specification |
| ConsentEngine.ConsentsAlwaysHaveAView | tolla/src/consent.rs:376-455 | whatever calls fail over any sequence of onboardings and deboardings, every consent id has an entry in `view` and ids stay unique |
| ConsentEngine.OnboardIsExact | tolla/src/consent.rs:376-455 | onboarding appends at most one document to each collection, never a consent without its view; success means documents with that id are in both; an existing container refuses it |
| ConsentEngine.OnboardSucceedsExactly | tolla/src/consent.rs:376-455 | an onboarding succeeds if and only if no container is listed or there, `views` does not readably hold the user, and certificate, files, container, view and consent all come off |
| ConsentEngine.OnboardStops | tolla/src/consent.rs:376-455 | what each stop leaves: nothing before the container is created, only the container if it does not start, no consent unless the view call was reported done |
| ConsentEngine.SuccessStoresUnlessStale | tolla/src/consent.rs:427-452 | a successful onboarding has stored its own serial, purposes and address if and only if no document with that id was there before or it was the same; a stale one is kept |
| ConsentEngine.SuccessCanLeaveAStaleConsent | tolla/src/consent.rs:330-336 | a run from the empty store after which an onboarding succeeds and the store holds the serial, purposes and address of an earlier one |
| ConsentEngine.DeboardUndoesOnboard | tolla/src/consent.rs:376-455 | whatever fails while somebody new is onboarded, either nothing changed or a deboard without failures restores containers and collections exactly |
| ConsentEngine.NothingWritesViews | tolla/src/consent.rs:359 | no sequence of operations changes `views` |
| ConsentEngine.DeboardIsExact | tolla/src/consent.rs:330-336 | a deboard succeeds if and only if the container exists and no call fails, and then takes exactly that user out of both collections |
| ConsentEngine.DeboardStops | tolla/src/consent.rs:224-237 | what each failing deboard leaves in containers, consents and `view` |
| ConsentEngine.RetryWorksWhileTheContainerIsThere | tolla/src/consent.rs:330-336 | some sequence of further deboards withdraws a consent if and only if the user's container still exists |
| ConsentEngine.DirectConsentNeedsAView | tolla/src/consent.rs:123-130 | the unused direct message keeps the invariant if and only if the insert is lost or the view is there |
| ConsentEngine.FaultlessRunsStayInStep | tolla/src/consent.rs:376-455 | without failures both collections and the containers are the onboarded-minus-deboarded users in order of arrival, each with the serial, purposes and address of its own onboarding |
| ConsentEngine.TenantIpsMatchTheTenants | tolla/src/consent.rs:183-203 | after such a run the address list has exactly one address per remaining user, the one its container got |
| ConsentEngine.TenantIpsExactly | tolla/src/consent.rs:188-199 | the query fails if and only if an entry does not decode; otherwise exactly the addresses of the readable entries are reported, in order |
| ConsentEngine.ReadableViewsAreAllReported | tolla/src/consent.rs:188-199 | if every entry reads back, every address is reported, in order |
| ConsentEngine.FirstBySerialFinds | tolla/src/consent.rs:256-272 | the search returns the first consent with that serial number, and nothing if and only if there is none |
| ConsentEngine.Engine.RemoveUser | tolla/src/consent.rs:224-237 | consent first, then view, stopping at the first reported error |
| ConsentEngine.Engine.DeboardUser | tolla/src/consent.rs:330-336 | container first, then the user's documents, as specified |
| ConsentEngine.Engine.OnboardUser | tolla/src/consent.rs:376-455 | checks, certificate, files, container, view and consent in the specified order, stopping at the first error |
| ConsentEngine.Engine.ConsentBasedView | tolla/src/consent.rs:358-374 | finds an address if and only if `views` is readable and has the id, and then that of the first entry with it |
| ConsentEngine.Engine.GetTenantIps | tolla/src/consent.rs:183-203 | the collecting loop skips unreadable entries and fails on an undecodable one |
| Collection.InsertIsExact | tolla/src/consent.rs:206-221 | storing a consent or a view loses nothing, appends one document if and only if the insert takes effect and the id is new, keeps ids unique, and is undone by deleting the id |
| Collection.WithoutIsExact | tolla/src/consent.rs:227-229 | deleting by id takes out exactly the document with that id, keeps the others in order and ids unique |
| Casts.CastsKeepLowBits | tolla/src/consent.rs:448-452 | the casts to signed 32-bit integers keep the value modulo 2^32 and lie in range |
| LeaseEndpoint.SerialsSurviveTheQueryString | tolla/src/endpoints.rs:171-174 | a printed serial number parses back to itself if and only if it is below 2^32 |
| LeaseEndpoint.ParsesExactly | tolla/src/endpoints.rs:171-174 | exactly the strings of at least one digit, after at most one plus sign, that denote a number below 2^32 parse, as that number |
| LeaseEndpoint.FormatMeaning | mongodb/docker-alpine-mongo/proxy/main.go:56-69 | what is printed denotes the number, in digits without leading zeros |
| LeaseEndpoint.HandlerAnswers | tolla/src/endpoints.rs:151-189 | when each status is answered; the first consent with the parsed serial decides between ok and forbidden |
| LeaseEndpoint.OkMeansConsent | tolla/src/endpoints.rs:177-189 | a positive answer means a consent with that serial for that purpose; with distinct serials and a readable store also conversely |
| LeaseEndpoint.CrashMeansNoSuchSerial | tolla/src/consent.rs:259-263 | the handler crashes if and only if a well-formed request names a serial number no consent in a readable store has |
| LockingCallback.InterleavingsAreSafe | rust-openssl/openssl-sys/src/ossl10x.rs:745-760 | over all interleavings of threads that unlock only what they hold: mutual exclusion per lock, slots touched only by the mutex holder, stores find the slot empty, no abort |
| LockingCallback.StepKeepsSound | rust-openssl/openssl-sys/src/ossl10x.rs:745-760 | every atomic piece of a call keeps mutex, slot and thread position in agreement for every lock |
| LockingCallback.UnlockNeedsTheHolder | rust-openssl/openssl-sys/src/ossl10x.rs:750-759 | between calls an unlock keeps the invariant if and only if the caller holds the lock, aborts if and only if nobody does, and otherwise frees another thread's mutex |
| LockingCallback.LockThenUnlock | rust-openssl/openssl-sys/src/ossl10x.rs:745-760 | a call with the low mode bit set, on a free mutex, ends with mutex, slot and lock at the caller and nothing else changed; unlocking restores everything |
| LockingCallback.Library.constructor | rust-openssl/openssl-sys/src/ossl10x.rs:770-778 | the library starts with a free mutex and an empty slot per lock |
| LockingCallback.Library.Perform | rust-openssl/openssl-sys/src/ossl10x.rs:745-760 | the pieces of the callback update the two vectors in place as the state machine says |
| HostnameVerify.DnsMatchMeaning | rust-openssl/openssl/src/ssl/connector.rs:447-457 | for all strings, after stripping one trailing dot: a match is pre, dot-free text, suf and rest around the first-label star if the wildcard rule applies, equality if not |
| HostnameVerify.WildcardMeaning | rust-openssl/openssl/src/ssl/connector.rs:459-520 | the searches and slices decide when the wildcard rule applies and when it matches |
| HostnameVerify.MatchKeepsLabelCount | rust-openssl/openssl/src/ssl/connector.rs:447-520 | pattern and hostname of a match have equally many labels |
| HostnameVerify.IpMatchMeaning | rust-openssl/openssl/src/ssl/connector.rs:522-540 | an address matches if and only if the certificate's bytes are the address in network order |
| HostnameVerify.AltNamesSearch | rust-openssl/openssl/src/ssl/connector.rs:402-425 | the search succeeds if and only if some name matches |
| HostnameVerify.NamesMatchExactly | rust-openssl/openssl/src/ssl/connector.rs:395-445 | a domain name is accepted if and only if some DNS alternative name, or without alternative names the common name, equals it or covers it as a wildcard, up to one final dot of each |
| HostnameVerify.StripDotMeaning | rust-openssl/openssl/src/ssl/connector.rs:449-454 | stripping takes off one final dot if there is one, and nothing else |
| HostnameVerify.NetworkOrder | rust-openssl/openssl/src/ssl/connector.rs:525-536 | a v4 address is its octets, a v6 one its eight segments with the high byte first |
| HostnameVerify.AddressesMatchExactly | rust-openssl/openssl/src/ssl/connector.rs:395-445 | an address is accepted if and only if the same bytes are among the alternative names or, without any, the common name is the same text up to a trailing dot; no wildcard matches it |
| Extensions.AddAllCollects | rust-openssl/openssl/src/x509/mod.rs:991-1001 | for any sequence of additions: one extension per type, in order of first insertion, each the last added of its type |
| Extensions.TypeMeaning | rust-openssl/openssl/src/x509/extension.rs:62-74 | two extensions share a type if and only if they are of one kind and, for the open kinds, of one identifier |
| Extensions.NidNumbers | rust-openssl/openssl/src/x509/extension.rs:76-87 | the numeric identifiers are 83, 126, 85 and 86, the caller's own, or none |
| Extensions.NidsAreDistinctWithoutClash | rust-openssl/openssl/src/x509/extension.rs:76-87 | the numeric identifiers are pairwise distinct if and only if no `OtherNid` was added beside the direct extension with its identifier |
| Extensions.RuleGivesDistinctNids | rust-openssl/openssl/src/x509/extension.rs:37-41 | callers who keep the documented rule get one extension per identifier |
| Extensions.Collection.Add | rust-openssl/openssl/src/x509/mod.rs:991-1001 | vector and index stay in agreement and the vector is upserted |
| Extensions.Collection.AddExtensions | rust-openssl/openssl/src/x509/mod.rs:204-214 | adding many is adding one after the other |
| Extensions.Iter.Next | rust-openssl/openssl/src/x509/mod.rs:1022-1032 | yields the element at the cursor with its type and advances, or nothing at the end |
| Extensions.Signed | rust-openssl/openssl/src/x509/mod.rs:252-256 | iterating after any additions yields every collected extension once, in order |
| Hasher.HashersKeepTheirLogs | rust-openssl/openssl/src/hash.rs:102-218 | over any run of creating, feeding, finishing and cloning, with failing calls: no context is misused, and every hasher's digest is that of the data fed to it, or to its original before cloning, since the last finish |
| Hasher.StreamingEqualsOneShot | rust-openssl/openssl/src/hash.rs:135-176 | feeding any chunks and finishing is the digest of their concatenation |
| Hasher.FinishDigests | rust-openssl/openssl/src/hash.rs:158-176 | finishing yields the digest of what was fed if and only if the needed calls succeed, and otherwise keeps the data |
| Hasher.UpdateFeeds | rust-openssl/openssl/src/hash.rs:135-148 | updating appends the data if and only if the needed calls succeed |
| Hasher.InitStartsOver | rust-openssl/openssl/src/hash.rs:119-132 | initialising succeeds if and only if the calls its state needs do, and then the context has absorbed nothing |
| Hasher.FinalizedNeedsInit | rust-openssl/openssl/src/hash.rs:135-138 | feeding or finishing the context without initialising would be a misuse if and only if the state is finalised |
| Hasher.WhatMakesHashers | rust-openssl/openssl/src/hash.rs:191-206 | creating and cloning, and nothing else, make hashers; a clone has the state of its original |
| Hasher.Hasher.Initialise | rust-openssl/openssl/src/hash.rs:119-132 | follows the state machine; the recursion with finishing ends by the state |
| Hasher.Hasher.Feed | rust-openssl/openssl/src/hash.rs:135-148 | follows the state machine |
| Hasher.Hasher.Finish2 | rust-openssl/openssl/src/hash.rs:158-176 | follows the state machine |
| Hasher.Hasher.Duplicate | rust-openssl/openssl/src/hash.rs:191-206 | a clone is a fresh object with the same state and data |
| Hasher.Hasher.Drop | rust-openssl/openssl/src/hash.rs:209-217 | dropping frees the context once, finalised unless finalising fails |
| Hasher.Hash2 | rust-openssl/openssl/src/hash.rs:274-278 | the one-shot function returns the digest of its input if and only if no call fails |
| Stack.EveryElementHasOneOwner | rust-openssl/openssl/src/stack.rs:46-67 | over any run on any number of stacks and iterators, each element is exactly once held by the caller, owned by a stack or an iterator's rest, or freed; each shell is freed exactly when dropped, once |
| Stack.StepConserves | rust-openssl/openssl/src/stack.rs:219-239 | every operation, a failing push included, keeps the number of owners of every element |
| Stack.UseMoves | rust-openssl/openssl/src/stack.rs:135-148 | what a stack or iterator gives up is what the caller gains or is freed |
| Stack.PushAndPop | rust-openssl/openssl/src/stack.rs:219-239 | a pop gives back what was pushed last and leaves the earlier items in order; a failing push leaves all as it was |
| Stack.PopsRunBackwards | rust-openssl/openssl/src/stack.rs:230-239 | pops yield the elements in reverse order of the pushes, then nothing |
| Stack.NextsRunForwards | rust-openssl/openssl/src/stack.rs:135-148 | a consuming iterator yields the elements in order of the pushes, then nothing |
| Stack.PushedThenIterated | rust-openssl/openssl/src/stack.rs:135-148 | a loop over what was pushed sees exactly that, in order |
| Stack.PushedThenRead | rust-openssl/openssl/src/stack.rs:196-204 | the element at an index is the one pushed at that turn |
| Stack.StackObject.Push | rust-openssl/openssl/src/stack.rs:219-227 | a successful push appends; a failing one changes nothing and drops its argument |
| Stack.StackObject.Pop | rust-openssl/openssl/src/stack.rs:230-239 | takes the last element, or nothing from an empty stack |
| Stack.StackObject.Get | rust-openssl/openssl/src/stack.rs:196-204 | the element at an index, or nothing beyond the end |
| Stack.StackObject.IntoIter | rust-openssl/openssl/src/stack.rs:59-66 | ownership passes to the iterator with the cursor at the start |
| Stack.StackObject.Next | rust-openssl/openssl/src/stack.rs:138-148 | hands out the element at the cursor and leaves its pointer behind |
| Stack.StackObject.SizeHint | rust-openssl/openssl/src/stack.rs:150-153 | never negative, exactly the number of elements still owned |
| Stack.StackObject.DropStack | rust-openssl/openssl/src/stack.rs:47-52 | frees every element once and the shell |
| Stack.StackObject.DropIntoIter | rust-openssl/openssl/src/stack.rs:127-132 | frees exactly the elements not yielded and the shell |
| Stack.Iter.Next | rust-openssl/openssl/src/stack.rs:308-316 | yields the element at the position and advances only then |
| Stack.Iter.SizeHint | rust-openssl/openssl/src/stack.rs:318-322 | the subtraction never underflows and is the number of elements left |
| Bio.FlagsTellTheLastMove | rust-openssl/openssl/src/ssl/bio.rs:74-116 | after any run the low four bits signal the last read or write exactly, with its direction, and all other bits are as at the start |
| Bio.RetryBitIsExact | rust-openssl/openssl-sys/src/lib.rs:1397-1407 | the retry bit is set if and only if the last read or write hit a retriable error |
| Bio.ErrorSlotMeaning | rust-openssl/openssl/src/ssl/bio.rs:51-54 | the slot holds an error if and only if one was captured since it was last emptied, and then the latest |
| Bio.ErrorsAreHandedOutOnce | rust-openssl/openssl/src/ssl/mod.rs:1829-1831 | two reports never hand out the same captured error |
| Bio.ReportsHandOutTheStandingError | rust-openssl/openssl/src/ssl/mod.rs:1768-1821 | over any run, with no panic pending: an empty system call error and the retry codes, each in its direction, hand out exactly the latest standing capture and empty the slot; the other codes leave it alone |
| Bio.PanicsAreRaisedFirst | rust-openssl/openssl/src/ssl/mod.rs:1768-1827 | the next report after a captured panic raises it, whatever the code, and leaves the error slot alone |
| Bio.RetryComesWithItsError | rust-openssl/openssl/src/ssl/mod.rs:1802-1813 | the made-up error for a missing one cannot appear at the first report after a read or write that asked for a retry |
| Bio.BioObject.Callback | rust-openssl/openssl/src/ssl/bio.rs:96-116 | flags, slots and return value of a read or write, by outcome; the cast of the length loses nothing up to the largest C integer |
| Bio.BioObject.Ctrl | rust-openssl/openssl/src/ssl/bio.rs:130-153 | only flushing does anything; it captures errors and panics and leaves the flags |
| Bio.BioObject.TakeError | rust-openssl/openssl/src/ssl/bio.rs:51-54 | hands out the slot's content and empties it |
| Bio.BioObject.TakePanic | rust-openssl/openssl/src/ssl/bio.rs:56-59 | hands out the slot's content and empties it |
| Bio.BioObject.Report | rust-openssl/openssl/src/ssl/mod.rs:1768-1821 | panic first, then the error that belongs to the code |
| Crypter.Cipher | rust-openssl/openssl/src/symm.rs:383-396 | within the foreign contracts it panics if and only if data and a block exceed a C integer, and otherwise returns exactly the bytes both calls wrote |
| Crypter.RunChunks | rust-openssl/openssl/src/symm.rs:288-330 | for any chunking, one crypter filling one buffer of the data's length plus a block panics if and only if there is a chunk and that size exceeds a C integer, and otherwise yields exactly what the calls wrote, in order |
| Crypter.WrittenNeverExceedsConsumed | rust-openssl/openssl/src/symm.rs:288-305 | over any chunks no more is written than was held and consumed |
| Crypter.Crypter.Update | rust-openssl/openssl/src/symm.rs:288-305 | asserts if and only if the slice is too small or too long; never writes outside it; casts lose nothing |
| Crypter.Crypter.Finalize | rust-openssl/openssl/src/symm.rs:317-330 | asserts if and only if the slice is smaller than a block; never writes outside it |
| CallbackRegistry.ReadersFindTheLastValue | rust-openssl/openssl/src/ssl/mod.rs:369-403 | after any sequence of setters, allocations and trampolines on any contexts, a reader finds the last value stored for its purpose on that context, of its own type, and null if and only if there is none |
| CallbackRegistry.IndexesAreForever | rust-openssl/openssl/src/ssl/mod.rs:243-305 | an assigned index never changes and no two purposes share one |
| CallbackRegistry.StepAssigns | rust-openssl/openssl/src/ssl/mod.rs:251-257 | every operation leaves its purpose with the index it had or else the allocator's |
| CallbackRegistry.PeekAfterStep | rust-openssl/openssl/src/ssl/mod.rs:656-686 | an operation changes what one reader on one context finds, and only if it stored for that reader |
| CallbackRegistry.Registry.GetIdx | rust-openssl/openssl/src/ssl/mod.rs:251-257 | the first lookup allocates, later ones return the same index |
| CallbackRegistry.Registry.SetExData | rust-openssl/openssl/src/ssl/mod.rs:802-811 | the box lands under the index on that context and nowhere else |
| CallbackRegistry.Registry.Set | rust-openssl/openssl/src/ssl/mod.rs:369-382 | a setter is looking the index up and storing under it |
| CallbackRegistry.Registry.CallTrampoline | rust-openssl/openssl/src/ssl/callbacks.rs:19-34 | the trampoline finds what the reader for its closure type finds |
| ProtocolList.SslEncodeByteStrings | rust-openssl/openssl/src/ssl/mod.rs:309-321 | the loop with its truncating cast computes the encoding |
| ProtocolList.ReadAfterEncode | rust-openssl/openssl/src/ssl/mod.rs:309-321 | a length-prefix reader consumes all of it and returns the strings of at most 255 bytes, in order |
| ProtocolList.EncodeAfterRead | rust-openssl/openssl/src/ssl/callbacks.rs:127-137 | encoding what was read gives the bytes back |
| ProtocolList.EncodeDistributes | rust-openssl/openssl/src/ssl/mod.rs:309-321 | encoding distributes over concatenation |
| ProtocolList.EncodedLength | rust-openssl/openssl/src/ssl/mod.rs:309-321 | the length is one more than each kept string, summed up |
| ProtocolList.KeptMeaning | rust-openssl/openssl/src/ssl/mod.rs:313-317 | exactly the strings of at most 255 bytes are kept, one by one and in order |
| Joiners.Append | rust-openssl/openssl/src/x509/extension.rs:662-672 | adds the element, after a comma unless it is the first, if it is switched on |
| Joiners.Build | rust-openssl/openssl/src/x509/extension.rs:368-402 | appending options one by one is joining the enabled ones |
| Joiners.EnabledMeaning | rust-openssl/openssl/src/x509/extension.rs:662-665 | the enabled elements are those of the choices switched on, one by one and in order |
| Joiners.JoinMeaning | rust-openssl/openssl/src/x509/extension.rs:100-108 | joining two nonempty lists is joining each, with one comma between |
| Joiners.SplitUndoesJoin | rust-openssl/openssl/src/x509/extension.rs:100-108 | splitting at commas gives the elements back if and only if there is one and none contains a comma |
| BigNum.NumBytesIsDigitCount | rust-openssl/openssl/src/bn.rs:384-386 | the rounded-up bit count is the number of base-256 digits, for every integer |
| BigNum.NumBitsMeaning | rust-openssl/openssl/src/bn.rs:384-386 | a nonzero number lies between the powers of two its bit count names |
| BigNum.FromSliceMeaning | rust-openssl/openssl/src/bn.rs:1080-1090 | bytes are read big-endian |
| BigNum.ToVec | rust-openssl/openssl/src/bn.rs:848-856 | only written bytes are handed out, without a leading zero, and they read back as the absolute value |
| BigNum.SliceRoundTrip | rust-openssl/openssl/src/bn.rs:1080-1090 | reading bytes and writing them again only loses leading zeros |

## Left out

- HTTP, TCP, Docker, MongoDB and file access: each call is only a step that may fail; a container is its name.
- Certificate construction, signing and ASN.1 decoding: a serial number is any number, an intent any string or an error.
- The time between the endpoint's answer and the recording of the lease, and TLS session resumption.
- Intents stored by `add_intent`, `get_consent` and `get_views`: single store calls with nothing to relate.
- `verify_callback` (`connector.rs`), which applies the hostname check to the leaf certificate only.
- `Pipe.done`, the TCP message codec and the client programs.
- The growth of a Go slice's capacity: appending to a full table moves to some larger array, here a little over twice the size.
- Proxy serial numbers above 64 bits and lengths above the range of `usize`: numbers are unbounded except where the code casts.
- `LockingCallback.Library.Perform`: does not model poisoning of the Rust mutexes, because no code runs while one is held that could panic.
- `Hasher.Hasher.Drop`: does not model the memory of the context beyond one flag.
- `Stack.StackObject.Push`: C pointers are numbers, so that two Rust values never share one is an assumption of the runs.
- `HostnameVerify.DnsMatchMeaning`: strings are sequences of characters; that the byte offsets of the source fall on character boundaries is not modelled.
- `Crypter.Cipher`: what the bytes mean, and the authenticated variants, which add calls that write no output.
- `BigNum.ToVec`: does not model bit counts beyond 31 bits.
- `CallbackRegistry.Registry.SetExData`: a replaced box is not freed in the source either; leaks are not tracked. The separate table for `Ssl` objects works the same way.
