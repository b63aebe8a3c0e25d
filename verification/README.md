# A verified model of the interception sidecar

The sidecar terminates TLS for selected hosts, runs extension actions on the traffic and forwards it. Its risk is
in the state machines and hand-offs around that work, and those are what this project models: a bundle store that must
survive a crash between any two writes, a one-way hand-over from a polled file to pushed bundles, a pool of upstream
transports that outlives configuration changes, two implementations of one allow-list, byte admission, a log ring, a
SOCKS codec, copy-on-write storage and a two-stage template.

`dafny verify dfyconfig.toml` checks everything. Objects the source updates in place are classes whose methods
are tied to functions on values; what holds over every run, interleaving or crash point is then proved about those
functions.

| file | what it models |
|---|---|
| `BundleDisk.dfy`, `BundleCalls.dfy`, `BundleManager.dfy`, `SweepOrder.dfy` | the durable store write by write, the manager's calls on values and as methods, and the sweep |
| `ConfigStore.dfy`, `MigrationSeam.dfy` | `configStore.Current` with its file caches; the seam between file and bundle under all interleavings |
| `TransportPool.dfy`, `Authorization.dfy` | reference-counted transport generations, and the composition of pool, numbering, fingerprint and targets |
| `HostPatterns.dfy`, `UpstreamTargets.dfy`, `PortText.dfy`, `TargetDisagreement.dfy` | host patterns, the compiled and the reference dial decision, the ports they read, and where the two part ways |
| `Validation.dfy`, `MappingChoice.dfy` | what validation demands of hosts, mappings and order; which mapping decides |
| `Fingerprint.dfy`, `FingerprintCollision.dfy` | the digest's input, and validated configurations that share it |
| `RuleWalk.dfy`, `BodyBudget.dfy` | execution order, rule matching and the status filter; the body-byte budget |
| `EngineLogs.dfy`, `SocksCodec.dfy` | the log ring with its wake-ups; SOCKS addresses, UDP datagrams and their buffers |
| `ExtensionStorage.dfy`, `SettingsTemplate.dfy` | extension storage; `{{settings.key}}` followed by `$` expansion |
| `ExtensionConfig.dfy`, `Outcomes.dfy`, `Runs.dfy`, `Sequences.dfy`, `StringOrder.dfy` | shared data types, the induction over runs, elements of sequences, byte order of strings |

Modelling decisions. SHA-256 is injective, so a document stands for its own digest. JSON is the identity. Decoding a
configuration, the regexp search and the IP address parser and printer are functions passed in, so the results hold for
any of them.
Time is an arbitrary number. Every durable write may be lost, take effect, or take effect and still report failure,
because the directory sync comes after the rename (`bundle_store.go:368-372`). Which of these befalls which operation is
a schedule given from outside, so the contracts say both what a fault may cost and what is owed where there is none.

Where the code and what is said about it part ways:

- `canonicalHost` strips one trailing dot per call and the reference calls it once more than the projection. Over the
  configurations validation lets through, the two dial decisions part ways exactly on the hosts a second call still
  changes and whose settled form some valid capture host matches (`TargetDisagreement.SourceDisagreementExactly`); `a.b..`
  is one.
- The fingerprint has no separator between a module's capture hosts and its mappings, so two different authorizations
  can share a fingerprint, both having passed validation (`FingerprintCollision.ValidatedCollision`); they do so exactly
  when the capture-host counts differ (`Fingerprint.EqualStreamsAgreeExactly`). A reload between two such configurations
  leaves requests under the second on transports opened for the first (`Authorization.CollisionReachesPool`).
- `Purge` removes records before the pointer. A crash in between leaves a pointer to nothing, and staging that id again
  without committing it makes the next restart serve a STAGED record (`BundleDisk.TornPurgeResurrectsStagedRecord`). This is
  the only write that can break the pointer (`BundleDisk.WriteKeepsConsistent`).
- Commit answers a repeat with success without looking at the disk. After a commit of another bundle failed with its
  pointer write in effect, committing the live bundle again reports a success that a restart does not honour
  (`BundleCalls.RepeatedSuccessNotDurable`); exactly when memory and disk stay in step is `BundleCalls.AgreementExactly`.
- A datagram longer than 65507 bytes, which IPv4 cannot carry, would be delivered short to a large enough reader
  (`SocksCodec.NeverShortExactly`).
- A literal such as `$` or `${name` in front of a placeholder absorbs the setting's value (`SettingsTemplate.MeantExactly`).
- Releasing a reservation in two parts is exact only because no reservation exceeds the budget
  (`BodyBudget.TwoPartReleaseExact`).

## Model

| member | source | states |
|---|---|---|
| `BundleDisk.WriteKeepsConsistent` | bundle_manager.go:152-362 | A guarded durable write keeps "a non-empty pointer names a stored ACTIVE record that decodes" if and only if it is not a purge cut short that took the pointed record |
| `BundleDisk.EveryCrashPointConsistent` | bundle_manager.go:122-345 | After any prefix of any run of guarded writes (stages, commits, aborts, sweeps, purges that reach the pointer) the disk is consistent and a restart can use it |
| `BundleDisk.CrashConsistencyExactly` | bundle_manager.go:122-362 | Every crash point of a guarded journal is consistent if and only if no purge in it was torn |
| `BundleDisk.EveryCrashPointHonest` | bundle_store.go:194-240 | Every readable record keeps the digest of its own document at every crash point |
| `BundleDisk.RunJoin` | bundle_store.go:339-373 | The journals of consecutive calls concatenate to a legal journal of both |
| `BundleDisk.TailKeepsRecovery` | bundle_manager.go:239-254 | Staging, marking records and removing non-ACTIVE ones never change what a restart serves |
| `BundleDisk.PointerWriteSwitches` | bundle_manager.go:231-246 | Activating a record and then pointing at it makes a restart serve exactly that document |
| `BundleDisk.CommitSwitchesOnce` | bundle_manager.go:202-254 | A crash anywhere inside Commit(id) restores what the pointer named before, or id, switching at exactly the second write |
| `BundleDisk.PurgeCutShort` | bundle_store.go:322-336 | A purge stopped early is consistent if and only if the pointed record is still there; otherwise a restart fails closed |
| `BundleDisk.TornPurgeResurrectsStagedRecord` | bundle_store.go:322-336 | A concrete run on which a restart serves a record that was only staged |
| `BundleDisk.IdsNameOneFile` | bundle_store.go:171-191 | A valid id names one file of the store: no separator, no hidden name, no way up |
| `BundleManager.BundleStore.Get` | bundle_store.go:208-240 | Without a fault the integrity-checked record or its exact error; with one, an I/O failure |
| `BundleManager.BundleStore.GetPointer` | bundle_store.go:284-306 | The id the pointer file names, corruption, or, exactly under a fault, an I/O failure |
| `BundleManager.BundleStore.List` | bundle_store.go:259-280 | All stored ids, or nothing exactly under a fault |
| `BundleManager.BundleStore.Put` | bundle_store.go:194-205 | Success exactly without a fault; the record lands also under a fault after the rename; nothing else changes |
| `BundleManager.BundleStore.SetPointer` | bundle_store.go:309-317 | Success exactly without a fault; the pointer moves also under a fault after the rename |
| `BundleManager.BundleStore.Delete` | bundle_store.go:244-256 | Success exactly without a fault; the one record goes also under a fault after the removal |
| `BundleManager.BundleStore.Purge` | bundle_store.go:322-336 | Everything is wiped, or, under a fault, only some records and not the pointer; success exactly without a fault |
| `BundleManager.Manager.SetActive` | bundle_manager.go:109-114 | The published bundle and its identity change together and the migration latches |
| `BundleManager.Manager.Recover` | bundle_manager.go:122-145 | The process serves what the disk's pointer names, or nothing with an error; the answer is that of the disk, or an I/O failure after a fault |
| `BundleManager.Manager.Stage` | bundle_manager.go:152-194 | A new record, a repeat of an identical one, or a refusal, and nothing else without a fault; never a replaced record, and the live bundle is untouched |
| `BundleManager.Manager.PruneSuperseded` | bundle_manager.go:287-325 | Completes without a fault; a completed sweep leaves exactly the newest superseded records by (activation time, id); a cut-short one only removed sweepable records |
| `BundleManager.SweptBound` | bundle_manager.go:268-325 | After a completed sweep at most 3 superseded records remain, and the just-replaced one, if it was marked, is among them |
| `BundleManager.SweptKeepsNewest` | bundle_manager.go:310-317 | No dropped record was activated after a kept one, and of equals the larger id was kept |
| `BundleManager.SweepResult` | bundle_manager.go:306-325 | Dropping a newest-first order past its second element is that sweep, from any backlog |
| `SweepOrder.Sort` | bundle_manager.go:310-317 | The superseded ids, each once, newest activation first and larger id first within a second |
| `StringOrder.LessAtDifference` | bundle_manager.go:316 | The first difference decides, and a string comes before its extensions |
| `BundleManager.Manager.Activate` | bundle_manager.go:231-238 | Succeeds exactly when neither write has a fault; the pointer write is issued only after the record write reported success; the journal of what landed is guarded and is a prefix of the two |
| `BundleManager.Manager.MarkSuperseded` | bundle_manager.go:239-246 | Without a fault a stored predecessor becomes SUPERSEDED; with one it may stay as it was; nothing else changes |
| `BundleManager.Manager.Commit` | bundle_manager.go:202-254 | Compare-and-swap in memory: all of it or, on any error, none; a repeat of the live id succeeds and writes nothing; the answer is the one the disk calls for, or an I/O failure only after a fault in the read or the first two writes; a fresh success leaves disk and memory on id and, without a fault, the predecessor marked and the sweep complete; from a state in which a restart would serve what the process serves, that stays so if and only if the call did not fail with both writes in effect; its journal is crash-safe and its sweep bounded |
| `BundleManager.RepliesExactly` | bundle_manager.go:122-345 | When recovering, staging, committing and aborting succeed if nothing fails: exactly on a usable disk; on a decodable document under a new or identical id; on the live id, or on the expected live id and a servable record; on a stored record that is live nowhere |
| `BundleManager.CrashSafety` | bundle_manager.go:202-254 | Every cut of a commit journal is consistent and recovers the old bundle before the pointer write and the new one after |
| `BundleCalls.CallKeepsAgreement` | bundle_manager.go:122-362 | One call keeps "a restart would serve what the process serves" if and only if it is not a commit that failed with its pointer write in effect, a purge of a live bundle short of the pointer, or a failed recovery of a pointed-at bundle |
| `BundleCalls.AgreementExactly` | bundle_manager.go:122-362 | Over any sequence of calls, crashes and restarts it holds after every one if and only if no call was in doubt in that sense |
| `BundleCalls.AgreementRestored` | bundle_manager.go:202-254 | From any consistent disk a successful commit of another bundle, a full purge or a recovery brings it back |
| `BundleCalls.RepeatedSuccessNotDurable` | bundle_manager.go:206-212 | From every state with a live bundle and another stored one, a run on which Commit reports success for a bundle a restart does not serve |
| `BundleCalls.TwoBundlesSuffice` | bundle_manager.go:206-212 | A disk such a run starts from |
| `BundleManager.Manager.Abort` | bundle_manager.go:329-345 | Without a fault a record that is live neither in memory nor on disk goes, and no other ever does; what a restart serves is unchanged |
| `BundleManager.Manager.Purge` | bundle_manager.go:350-362 | Memory serves nothing whatever the disk does; the latch stays; the disk is empty on success, which is exactly without a fault |
| `ConfigStore.Store.Current` | config.go:1754-1849 | The fields after the call and the answer are those of the functional step, caches included |
| `ConfigStore.CacheRefinesRereading` | config.go:1790-1849 | One call with caches answers as a cacheless reader keeping the last valid document, and numbers up exactly when that document changes |
| `ConfigStore.RacingReplacementSeenOnce` | config.go:1790-1849 | A file replaced between stat and read is seen as it was at one of the two instants |
| `ConfigStore.CachesInvisible` | config.go:1790-1925 | Over any sequence of file states and read failures the caches cannot be told from re-reading, and the generation counts the changes |
| `ConfigStore.RacesSeenOnce` | config.go:1790-1925 | The same, reply included, without assuming that stat and read saw one file: for some choice, call by call, of the instant of the stat, where the file has an identity, or of the read |
| `MigrationSeam.StepKeepsInv` | bundle_manager.go:109-114 | Each atomic store, load and Current keeps the seam, pointer-identity and numbering invariants |
| `MigrationSeam.FileNeverReturns` | main.go:153 | Under every interleaving of unlocked loads, once any Current has returned a bundle no later one returns the file |
| `MigrationSeam.NumbersIdentifySnapshots` | config.go:1697-1774 | Generations never decrease, and equal generations mean the same snapshot, across reloads, activations, withdrawals and re-activations |
| `MigrationSeam.CommittedMeansNoFile` | config.go:1754-1774 | After a commit has returned, no Current that starts later answers with the file |
| `MigrationSeam.WritersDecide` | bundle_manager.go:109-114 | The published bundle and the latch are those of the stores and withdrawals in the run |
| `MigrationSeam.CurrentAnswers` | config.go:1754-1849 | The answer of every Current of every run, read off the run: the bundle published when it loaded, under a number that moves exactly when another bundle is served; none, with nothing held, once migrated and withdrawn; otherwise the file |
| `MigrationSeam.WithdrawnMeansNone` | config.go:1768-1773 | After a withdrawal, with no store in between, a migrated process answers that it has no bundle |
| `MigrationSeam.StoredIsServed` | config.go:1757-1767 | After a store, with no store or withdrawal since, that bundle is served |
| `TransportPool.Pooled.Acquire` | proxy.go:750-800 | The pool after the locked section is the functional acquire of the request's snapshot |
| `TransportPool.Pooled.Release` | proxy.go:802-813 | A handle is given back at most once; the last one on a retired generation decides its close |
| `TransportPool.Pooled.CloseUpstreamTransports` | proxy.go:815-835 | The published generation leaves service and is closed if nobody holds it |
| `TransportPool.Pooled.Close` | proxy.go:951-971 | The decided close runs on exactly that generation |
| `TransportPool.StepKeepsLifetime` | proxy.go:750-847 | Every section keeps the reference-count, retirement and close invariant |
| `TransportPool.PoolLifetime` | proxy.go:750-847 | In every interleaving refs equals unreleased handles, the published generation is neither retired nor closed, none is closed while held, and every retired one at zero is closed or about to be |
| `TransportPool.PoolAuthorization` | proxy.go:750-800 | Every handle's generation carries the fingerprint of the handle's own snapshot, also after a pool is carried to a newer number |
| `TransportPool.AcquireInAnyRun` | proxy.go:755-789 | In any run a request with the published number, or a newer one and the published fingerprint, shares the published generation and adds none; exactly the others (zero number, older, changed fingerprint, nothing published) get one of their own, published when the request is the newest |
| `TransportPool.RunDecidesHandles` | proxy.go:791-813 | The handles are the requests of the run in order, given back exactly when released |
| `TransportPool.RunDecidesCloses` | proxy.go:951-971 | A generation is closed exactly when its close ran |
| `TransportPool.PublishedByAcquireOnly` | proxy.go:815-835 | A shutdown leaves nothing published, and only an acquisition publishes or adds |
| `Authorization.RequestGetsItsOwnFingerprint` | proxy.go:750-800 | With requests that carry answers of a real run of Current, every request's transports were built under its own fingerprint |
| `Authorization.RequestDialsItsOwnTargets` | transport_projection.go:160-192 | Those transports answer every host and port as the request's own snapshot would, on the compiled runtimes or without, when capture-host counts agree |
| `Authorization.ReloadServesBoth` | config.go:1790-1849 | A run of six atomic steps in which the old and the reloaded document are each served once, under consecutive numbers |
| `Authorization.CollisionReachesPool` | proxy.go:750-800 | For every colliding validated pair, a run in which a request under the second snapshot is handed transports opened for the first, which refuse a host its own snapshot dials |
| `HostPatterns.CanonicalHostNotIdempotent` | config.go:754-762 | A concrete host whose canonical form is not a fixed point |
| `TargetDisagreement.PortIsDropped` | config.go:754-762 | A plain name with any port behind it is the name |
| `TargetDisagreement.CaseIsFolded` | config.go:755 | A host and the same host in capitals are one |
| `TargetDisagreement.SpaceIsDropped` | config.go:755 | Space around a host is not part of it |
| `HostPatterns.MatchExactly` | config.go:883-889 | A plain pattern is one host; `*.x` is every host of at least one character, a dot and x |
| `HostPatterns.CoverIsInclusion` | config.go:883-901 | For a valid candidate, as every caller has checked, hostPatternCovers holds if and only if every host matching the candidate matches the allowed pattern |
| `HostPatterns.CoverIsInclusionExactly` | config.go:891-901 | Without that check the two agree for every allowed pattern if and only if the candidate does not begin with a dot |
| `HostPatterns.CompiledMatchesScan` | module_runtime.go:1231-1278 | The compiled matcher accepts exactly the hosts some pattern matches |
| `HostPatterns.NewMatcher` | module_runtime.go:1231-1246 | The loop builds that matcher, with each wildcard suffix once |
| `UpstreamTargets.NewProjection` | transport_projection.go:55-115 | The walk builds the projection of the configuration |
| `UpstreamTargets.ResolveTarget` | transport_projection.go:160-192 | The best-so-far loops compute the functional target |
| `UpstreamTargets.MappedInterceptTarget` | config.go:840-871 | The reference loop computes the functional mapping choice |
| `PortText.PortsExactly` | transport_projection.go:165-168 | Exactly the decimal spellings of 1 to 65535, with leading zeros and a plus sign allowed, are ports, and each reads as its number |
| `UpstreamTargets.ProjectionRefinesReference` | module_request_rewrite.go:70-90 | Compiled and reference decision agree for unique ids, every port text and every host whose canonical form is a fixed point, with or without a compiled runtime on either side |
| `UpstreamTargets.ProjectionIgnoresRuntime` | transport_projection.go:134-158 | For unique ids the projection is the same with the compiled runtime and without |
| `UpstreamTargets.ReferenceIgnoresRuntime` | module_request_rewrite.go:70-90 | So are the reference answers, on every host |
| `TargetDisagreement.DisagreementExactly` | transport_projection.go:141-192 | For any spelling functions, some admissible configuration makes projection and reference disagree on a host, each with its runtime or without, if and only if a second canonicalisation changes the host and a valid capture host matches the result |
| `TargetDisagreement.CapturableExactly` | config.go:946-958 | Some valid capture host matches a host if and only if the host itself, or `*` and a tail of it from a dot on, is one |
| `TargetDisagreement.SourceDisagreementExactly` | config.go:754-762 | The same for canonicalHost, with the condition readable off the host |
| `TargetDisagreement.TwoTrailingDotsDisagree` | config.go:754-762 | An admissible configuration and `a.b..`, with or without the runtimes |
| `Validation.OneExtensionAdmissible` | config.go:916-972 | One extension with valid captures, mappings, action hosts and count makes a configuration validation lets through |
| `MappingChoice.ValidateHostMappings` | config.go:1468-1480 | Accepts exactly the lists whose mappings are valid and covered by the capture hosts |
| `MappingChoice.CheckConflicts` | config.go:1101-1112 | Refuses exactly the configurations whose enabled extensions map one pattern to two targets |
| `MappingChoice.LoopDecides` | config.go:840-871 | The loop ends with a mapping that outranks every other match, or with none when none matches |
| `MappingChoice.ResolverFormRecognised` | config.go:1523-1528 | `server:` in any case, with anything behind it, is the resolver form |
| `MappingChoice.EqualLengthWildcardsEqual` | config.go:883-889 | Two wildcards of one length that match one host are the same pattern |
| `MappingChoice.DecisionUnique` | config.go:1105-1110 | Without conflicts there is one leading mapping |
| `MappingChoice.TargetIsDecided` | transport_projection.go:160-192 | The projection of a validated configuration, with its runtime or without: on ports 80 and 443 of a captured host the target of the exact mapping, else of the longest matching wildcard, else the host, skipping resolver forms; otherwise the host where some extension may use the network, and nothing elsewhere |
| `MappingChoice.ActiveMappingsDecide` | transport_projection.go:160-192 | The answer is determined by the active mappings, the switch, the grant and whether the host is captured |
| `MappingChoice.TargetIgnoresOrder` | transport_projection.go:160-192 | Two validated configurations with the same enabled extensions in any order answer every fixed-point host and port alike |
| `Fingerprint.WriteStream` | transport_projection.go:55-132 | The fields written one by one form the stream the lemmas speak about |
| `Fingerprint.StreamDecodes` | transport_projection.go:61-132 | Equal streams mean equal proxy, flags and, in order, each enabled module's id, field list and network flag |
| `Fingerprint.EqualStreamsAgreeExactly` | transport_projection.go:81-98 | Under equal streams the capture hosts and usable mappings agree if and only if the per-module capture-host counts do |
| `Fingerprint.EqualFingerprintEqualTargets` | transport_projection.go:160-192 | With equal counts every host and port resolves alike, whichever side carries its compiled runtime |
| `Fingerprint.MappingReadsAsCaptureHosts` | transport_projection.go:81-98 | A family of pairs with equal streams and different answers, with the runtimes or without |
| `FingerprintCollision.ValidatedCollision` | config.go:943-969 | The family restricted to configurations that pass validation and carry their runtimes |
| `FingerprintCollision.CollisionExists` | config.go:1612-1631 | Capturing *.a.com and mapping b.a.com to z.com belongs to it |
| `RuleWalk.ValidateExecutionOrder` | config.go:1116-1138 | Succeeds if and only if ids are unique and the order lists each exactly once; a missing array and a wrong length are reported exactly when they occur, an unknown or duplicate id only when it is one |
| `RuleWalk.Pigeonhole` | config.go:1116-1138 | As many distinct known ids as extensions leave no duplicate id and none missing |
| `RuleWalk.IndexModules` | module_runtime.go:1296-1317 | The first walk yields the extensions by id, the matchers and the captured patterns of that runtime |
| `RuleWalk.HostsMatchById` | module_runtime.go:1300-1330 | The matcher filed under an active id belongs to the extension filed under it, even where ids repeat |
| `RuleWalk.CompileConfig` | module_runtime.go:1295-1373 | Fails exactly when a visited extension does not compile; otherwise one compiled module per visited extension, in order, closed gates dropped, and the runtime the target results are about |
| `RuleWalk.WalkVisitsEachOnce` | module_runtime.go:1318-1373 | For a validated order the walk visits each enabled extension exactly once, in that order, and no other |
| `RuleWalk.WalkFindsExactly` | module_runtime.go:1402-1443 | A rule is in the result if and only if its extension is enabled and captures the host, its gate is open and it applies |
| `RuleWalk.MatchesInExecutionOrder` | module_runtime.go:1420-1443 | The matches of a validated configuration stand in execution order, the rules of one extension as declared, each open applicable rule of a capturing enabled extension as often as it is declared |
| `RuleWalk.AppliesExactly` | module_runtime.go:1427-1437 | Phase, some host pattern, scheme and path bind, method and status where listed, and nothing else does |
| `RuleWalk.MatchModule` | module_runtime.go:1421-1441 | The rule loop over compiled matchers finds the rules a scan of the patterns finds |
| `RuleWalk.MatchingRules` | module_runtime.go:1420-1443 | The loop over compiled modules is the walk, in its order |
| `RuleWalk.MatchingScriptRules` | module_runtime.go:1412-1443 | Without a runtime the result is that of compiling first, and empty when that fails |
| `RuleWalk.FilterIsFreshWalk` | module_proxy.go:334-355 | Filtering the status-agnostic match by any status equals a fresh status-aware walk, element by element |
| `RuleWalk.ResponseRulesForStatus` | module_proxy.go:338-355 | The lazily copied result is that filter; the candidates are not written to, and are returned themselves exactly when nothing is dropped |
| `BodyBudget.WidestIsMaximum` | module_proxy.go:838-843 | The running maximum is the one largest limit among the rules that count, zero when none does |
| `BodyBudget.ReadLimit` | module_proxy.go:402-416 | The widest limit of a rule that reads, or the 64 MiB cap |
| `BodyBudget.RequestReservation` | module_proxy.go:836-858 | The least reservation covering the declared length as far as it is read and every rule's limit; at most 64 MiB for validated rules |
| `BodyBudget.ResponseReservation` | module_proxy.go:872-887 | The least reservation covering what the response path reads and every rule's limit; at most 64 MiB for validated rules |
| `BodyBudget.Budget.Acquire` | module_proxy.go:768-809 | Admitted exactly when the clamped request fits, and then counted |
| `BodyBudget.Budget.Release` | module_proxy.go:811-828 | The clamped amount goes back, never below zero |
| `BodyBudget.TwoPartReleaseExact` | module_proxy.go:811-828 | Shrink plus final release returns what was taken if and only if the reservation fits the budget or nothing was kept |
| `BodyBudget.Handler.Admit` | proxy.go:507-513 | The whole reservation is taken or nothing is; a caller that gives up owes nothing |
| `BodyBudget.Handler.AfterPreparation` | proxy.go:519-532 | Early release, shrink or neither, as the functional step says |
| `BodyBudget.Handler.BeginResponse` | proxy.go:592-593 | The response leg asks for the least covering reservation and leaves the request leg as it was |
| `BodyBudget.Handler.AdmitResponse` | proxy.go:593-598 | The response reservation is taken on top of the request's, or not at all |
| `BodyBudget.Handler.RunDeferred` | proxy.go:514-518 | Every exit runs the registered releases, last first |
| `BodyBudget.NoClampFires` | module_proxy.go:768-828 | In any reachable state every acquire and release is plain addition and subtraction |
| `BodyBudget.StepKeepsInv` | proxy.go:505-599 | Each atomic section keeps used equal to the sum of outstanding reservations and within the limit |
| `BodyBudget.OwedAfter` | proxy.go:505-599 | What an exchange owes after each section: its reservation once admitted; nothing after preparation when nothing is retained, else the lesser of reservation and buffer; the response on top; nothing in the end |
| `BodyBudget.EveryRunConserves` | proxy.go:505-620 | The same over every interleaving of any number of exchanges, through every exit |
| `BodyBudget.AllReturnedFreesAll` | proxy.go:480-620 | When every exchange has returned the budget is whole |
| `BodyBudget.WhoeverOwesCanReturn` | proxy.go:514-598 | An exchange that owes bytes can always give all of them back in at most two releases |
| `EngineLogs.EngineLogHub.Publish` | engine_logs.go:115-152 | The ring slot, the counter and every reader's wake token change as the functional step says |
| `EngineLogs.EngineLogHub.Subscribe` | engine_logs.go:250-263 | A subscription at the current position, counted once, or none on a closed hub |
| `EngineLogs.EngineLogHub.Next` | engine_logs.go:265-301 | The payload at the cursor, the end, or a wait |
| `EngineLogs.EngineLogHub.CloseSubscription` | engine_logs.go:303-316 | One reader leaves, at most once |
| `EngineLogs.EngineLogHub.Close` | engine_logs.go:318-333 | Every reader's channel is closed once and the count is zero |
| `EngineLogs.StepKeepsInv` | engine_logs.go:115-333 | Every section keeps the ring, reader, wake-up and delivery invariants, the last tying skipped numbers to the ring |
| `EngineLogs.EveryInterleaving` | engine_logs.go:115-333 | In every interleaving nothing panics, no waiting reader with unread events lacks a token, the count is the reader set's size, and each delivery is the payload published under its number, every number skipped having been overwritten in the ring |
| `EngineLogs.NothingHeldIsSkipped` | engine_logs.go:265-301 | In any run a delivery is the first number from the cursor on that the ring still holds, and a reader waits only when there is none |
| `EngineLogs.RunDecidesHistory` | engine_logs.go:115-333 | In any run the published history is every payload handed to Publish before the hub was closed, in order; a subscription starts at the number of payloads before it; it is closed exactly when it or the hub was |
| `EngineLogs.SequencesIncrease` | engine_logs.go:265-301 | A subscriber's sequence numbers strictly increase |
| `EngineLogs.NotBeforeStart` | engine_logs.go:250-301 | None precedes its subscription point |
| `SocksCodec.AddressRoundTrip` | socks.go:169-254 | An encoded address followed by anything reads back as itself, an IP in the library's spelling, consuming exactly its bytes |
| `SocksCodec.DatagramRoundTrip` | socks.go:531-591 | Parsing an encoded datagram returns payload and target, and it is at most 65507 bytes |
| `SocksCodec.WireLayout` | socks.go:215-254 | Type byte 1, 4 or 3, the address or a length and a name, the port high byte first |
| `SocksCodec.EncodableExactly` | socks.go:216-243 | Exactly a port in range and an address, or a name of 1 to 255 bytes without a colon, can be sent |
| `SocksCodec.DatagramLayout` | socks.go:531-547 | Three zero bytes, the address, the payload |
| `SocksCodec.ParsedLayout` | socks.go:577-591 | Only unfragmented datagrams of that layout are accepted, and what is read is what stands there |
| `SocksCodec.QuickLookIsHarmless` | socks.go:256-272 | mayBeIPAddress never keeps an address from being sent as one |
| `SocksCodec.ResizeBuffer` | socks.go:557-575 | Big enough for the clamped size, the same storage when it already was, else doubled within 65507 |
| `SocksCodec.EncodeInto` | socks.go:531-547 | The in-place encoding equals the functional one, never outgrows the resized storage, and fails with the same error |
| `SocksCodec.AddressIgnoresTail` | socks.go:169-209 | An address reads the same from any prefix of 259 bytes or more |
| `SocksCodec.TruncationIsDropped` | socks.go:549-591 | What a read delivers does not depend on the buffer, and a truncated datagram is dropped |
| `SocksCodec.NeverShortExactly` | socks.go:549-555 | No datagram up to a length is delivered short if and only if that length is within 65507 or the reader leaves room for the largest envelope and one byte |
| `SocksCodec.ReadFixed` | socks.go:432-451 | The first arrival from the relay that parses, names the port and fits, delivered whole |
| `SocksCodec.EncodedIsAccepted` | socks.go:432-451 | An encoded datagram is delivered whole exactly when it comes from the relay, for the port, to a reader with room |
| `SocksCodec.EncodedIsServed` | socks.go:614-640 | The same at the server: from the pinned allowed source, to an allowed target |
| `SocksCodec.ServerConn.ReadFrom` | socks.go:614-640 | The first acceptable arrival from the pinned source; the pin is that of all arrivals seen |
| `SocksCodec.PinnedOnce` | socks.go:622-630 | The relay is the first source with the allowed address and never changes |
| `SettingsTemplate.FindIsFirst` | module_rewrite.go:281-289 | The search finds the first occurrence, or there is none |
| `SettingsTemplate.ParseRenders` | module_rewrite.go:280-292 | A template is exactly its literals and placeholders written one after another |
| `SettingsTemplate.ParseIsTheOnlyReading` | module_rewrite.go:280-292 | No other leftmost, earliest-closed reading has the same text |
| `SettingsTemplate.ValueExactly` | module_rewrite.go:291-303 | A declared value map decides, else the setting; nothing else has a value |
| `SettingsTemplate.DeclinesExactly` | module_rewrite.go:292-302 | Declines exactly when some key is not set, or set to a value its map does not list |
| `SettingsTemplate.HoleInserts` | module_rewrite.go:296-305 | A mapped placeholder inserts the mapped text, a plain one the setting, each escaped |
| `SettingsTemplate.ExpandSettings` | module_rewrite.go:277-308 | For any markers no closing of which can begin inside an opening: declines if and only if some key has no value; otherwise literals with escaped values, nothing written being scanned again; the loop terminates on the unread rest |
| `SettingsTemplate.ExpandSettingsTemplate` | module_rewrite.go:277-308 | The same with the source markers `{{settings.` and `}}` |
| `SettingsTemplate.EscapedVerbatim` | module_rewrite.go:304-305 | An escaped value comes out of `$` expansion byte for byte, whatever follows |
| `SettingsTemplate.FinishedSplits` | module_rewrite.go:196 | Text that leaves no reference open expands independently of what follows |
| `SettingsTemplate.TwoStagesMeant` | module_rewrite.go:192-196 | Both stages give the expanded literals with each value inserted byte for byte, for all values and captures |
| `SettingsTemplate.MeantExactly` | module_rewrite.go:243-308 | For all settings they do if and only if no literal before a placeholder ends in an open reference |
| `ExtensionStorage.BucketBytes` | module_runtime.go:1458-1464 | The sum over the entries, in whatever order the map is ranged |
| `ExtensionStorage.CloneBucket` | module_runtime.go:637-643 | A fresh map with the same entries, empty for a missing one |
| `ExtensionStorage.CloneModules` | module_runtime.go:629-635 | A fresh outer map sharing the buckets |
| `ExtensionStorage.StorageObject.Get` | module_runtime.go:508-519 | The published value of the extension's own bucket |
| `ExtensionStorage.StorageObject.Set` | module_runtime.go:520-566 | Snapshot, file, commit count and reply as the functional call says; the snapshot published before is not modified |
| `ExtensionStorage.StorageObject.Delete` | module_runtime.go:567-593 | The same for removing one key |
| `ExtensionStorage.StorageObject.Clear` | module_runtime.go:594-616 | The same for removing the bucket |
| `ExtensionStorage.LoadsExactly` | module_runtime.go:645-682 | A store is loaded exactly within 4 MiB, 256 keys a bucket, keys of 1 to 256 bytes and values of up to 64 KiB |
| `ExtensionStorage.CallExactly` | module_runtime.go:520-616 | Exactly when a persist is attempted, when the script is told true, and when a commit is spent |
| `ExtensionStorage.OtherKeysKept` | module_runtime.go:544-547 | A set or delete leaves the other keys of the caller's bucket with their values |
| `ExtensionStorage.EveryRunSound` | module_runtime.go:498-682 | Over any run with any persists failing, published snapshots pass the load checks, no action attempts more than 32 persists, and a readable store stays readable for a restart |
| `ExtensionStorage.PublishedMeansPersisted` | module_runtime.go:555-565 | A snapshot is published only after a persist that reported success, and is then what the file holds |
| `ExtensionStorage.OthersUntouched` | module_runtime.go:629-643 | An extension that makes no call keeps its bucket |
| `ExtensionStorage.QuotaKept` | module_runtime.go:548-554 | A bucket within 1 MiB stays within it |
| `ExtensionStorage.CallKeepsStep` | module_runtime.go:698-741 | One call keeps file and snapshot in step if and only if it leaves no such persist |
| `ExtensionStorage.RestartRestores` | module_runtime.go:645-741 | A restart at every point of a run finds exactly what was published there if and only if no attempted persist that fits the store took effect and reported failure |
| `ExtensionStorage.RepliesAreTruthful` | module_runtime.go:520-616 | The script is told true if and only if the call's effect is in the published snapshot |

## Left out

- JavaScript, jq, regexp, HTML and CSS engines, the web APIs, and `script_nesting.go`: library behaviour or heuristics without a specification.
- HTTP, TLS, QUIC, socket and WebSocket plumbing, certificates, peer credentials, control API handlers, flags and shutdown: I/O.
- Compression, JSON, and configuration validation beyond id length and uniqueness, capture hosts, mappings, action hosts and counts, and execution order; `validHostTarget` is a parameter.
- Validation.OneExtensionAdmissible: leaves out the metadata, source digest, settings, phase, body-mode and script checks of the validator, because nothing proved here reads those fields.
- Canonical host names: letters are lower-cased as ASCII; Unicode case folding is not modelled.
- Log suppression of repeated read errors in `config.go`, log messages everywhere, and the normalisation and drop counter of `Publish`: they do not affect what is proved.
- `BundleManager.Manager.Purge`: a crash between its two removals is not crash-consistent; the exact condition is `BundleDisk.PurgeCutShort`.
- At most one ACTIVE record across crashes: it does not hold, since Commit marks the new record before moving the pointer.
- A permanent seam across restarts: the latch is per process.
- Lock and condition-variable waiting: an atomic section is one step, `Budget.Acquire` is one look at the counter, and fairness and timeouts are choices of the environment.
- `EngineLogs.EngineLogHub.Next`: one consumer per subscription, as its only caller has; the blocking wait is a separate step.
- That a held reservation covers the request bytes resident after preparation: a changed body does not update the count, so only conservation is proved.
- Decode-then-encode identity of SOCKS addresses: IPv4-mapped and IP-looking names are normalised; aliasing between a datagram buffer and its payload is not modelled.
- Module id syntax and UTF-8 validity of the extension store: only the key, value and size checks of a load are modelled.
- `SettingsTemplate.ExpandSettings`: settings are given as rendered text; rendering of numbers and booleans is left out.
- The SOCKS handshake, authentication and reply code, and the WriteTo methods: thin wrappers around the codec.
