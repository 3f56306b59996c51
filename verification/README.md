# Segwire in Dafny

Segwire is a daemon that keeps kernel network namespaces in line with a directory of TOML
files. This project models its logic cores and proves what they are for.

| modules | what they model |
|---|---|
| Names, Config, Kernel, Reconcile, StateManager | the reconciler: a three-way merge of configuration, tracked table and kernel, with conflict reports, their resolution and maintenance |
| SyncEffects, Convergence, Runs | the effect of its operations on one name, field by field; what one, two and arbitrarily many of them achieve |
| Substitution, Templates | environment substitution as a bounded rewriter in place, and as recursive expansion |
| Bytes, NetlinkSocket, GenericNetlink | netlink framing after sections 2.2 and 2.3.2 of RFC 3549: message walk, multi-datagram responses, attribute walk, request encoder |
| ConfigManager, ConfigAgreement, Debouncer | the event-driven configuration cache against a full scan, and the watcher's debounce table |
| Text, ResolvConf, WgQuick, WgQuickLines, WgQuickRoundTrip | the line-based parsers and their round trips |
| Locks | the daemon's threads and its three mutexes as an interleaving of lock steps |
| Interfaces | physical interfaces moved into namespaces and back at shutdown |
| Wrappers, Listing | Option and Result; sequences that list a set |

The source updates its tables in place, so the managers, the kernel backend, the socket, the
watcher and the host's interfaces are classes, and its loops are loops. Each such method is
proved against a function or relation on values; the theorems are about those. Hash maps are
visited in an arbitrary order: every loop over a map picks any remaining key.

`Reconcile.Synced` states the effect of one synchronization without any order. With C the
configured names, S the tracked ones, A the kernel's and M those of A that carry the prefix:
the table then tracks C and S ∩ M, the kernel is A plus the created names, S ∖ (C ∪ M) is
reported as deleted and M ∖ C as conflicts.

Where the code and its documentation disagree, the model follows the code:

- Substitution allows eight changing rounds, not the ten its constant suggests, because the
  round that finds nothing is counted and the limit itself is refused
  (`crates/segwire-common/src/utils.rs:209-235`; `Substitution.SubstituteIff`).
- Variables missing from the configuration are looked up in the environment of the process
  (`crates/segwire-common/src/utils.rs:303`), which `docs/configuration.md:130` excludes.
- Namespace names may hold capital letters (`crates/segwire-common/src/utils.rs:50-51`), which
  `docs/configuration.md:134` excludes.
- The dump test takes any of two flag bits (`crates/segwire-netlink/src/lib.rs:140`;
  `NetlinkSocket.ExclusiveCreateIsDump`).
- The watcher asks for the ending of a file name and the scan for its extension, which differ
  on a file named just `.toml` (`ConfigAgreement.WatcherScanDifference`).

Some expected properties hold only under a condition, which the lemmas state exactly:

- convergence (`Convergence.Converges`) and the truth of the table after a resolution
  (`Runs.ResolveTruthfulIff`);
- the agreement of the cache with a scan after one event (`ConfigAgreement.HandledIsScanIff`):
  a renamed file and one that stops loading leave a stale entry behind;
- the restoration of interfaces (`Interfaces.LostInCleanupIff`);
- the independence of a request from the split of its answer when it is no dump
  (`NetlinkSocket.SplitFreeIff`);
- both round trips (`ResolvConf.RoundTripIff`, `WgQuickRoundTrip.RoundTripIff`).

Times are numbers of nanoseconds given to each operation; the reconciler compares whole
seconds. What a directory, a file, a socket or the clock shows is a parameter.

## Model

| member | source | states |
|---|---|---|
| `Names.FullNameMatches` | crates/segwire-daemon/src/config.rs:239-249 | Every full name the daemon generates is one it manages, and generating it again changes nothing. |
| `Names.FullNameValidIff` | crates/segwire-common/src/utils.rs:36-83 | For a valid prefix and a valid name, the generated full name is valid if and only if it is not prepended or the joined length is at most 63: the length is the only way in which the second check can fail. |
| `Names.FullNameInjective` | crates/segwire-daemon/src/config.rs:239-249 | Two names without the prefix get the same full name only when they are equal. |
| `Names.ValidNameIff` | crates/segwire-common/src/utils.rs:36-58 | A name is valid exactly with 1 to 63 characters, a letter first and then letters, digits and hyphens, given by their code points. |
| `Names.ValidPrefixIff` | crates/segwire-common/src/utils.rs:61-83 | A prefix is valid exactly with 1 to 32 such characters. |
| `Names.OwnedIff` | crates/segwire-daemon/src/config.rs:220-236 | A name is the daemon's exactly if it is the prefix or continues it with a hyphen or an underscore. |
| `Names.FullNameForms` | crates/segwire-daemon/src/config.rs:239-249 | An owned name is kept, any other gets the prefix and a hyphen. |
| `Names.ForeignIff` | crates/segwire-daemon/src/config.rs:386-394 | A file is left to another daemon exactly if its name has a hyphen or underscore and is not owned. |
| `Config.SecondsPassed` | crates/segwire-daemon/src/namespace_state.rs:333-337 | The number of whole seconds since the epoch, zero before it. |
| `Kernel.SimulatedKernel.CreateNamespace` | crates/segwire-daemon/src/netlink.rs:121-140 | Succeeds exactly for a valid name that is free; then the map has one more active entry under the next id, otherwise nothing changes and the error tells which of the two conditions failed. |
| `Kernel.SimulatedKernel.DeleteNamespace` | crates/segwire-daemon/src/netlink.rs:170-180 | Succeeds exactly for a valid name that exists; then only that entry is gone, otherwise nothing changes. |
| `Kernel.GrownByOne` | crates/segwire-daemon/src/netlink.rs:124-140 | Adding one more namespace to a batch of new ones keeps old entries untouched and gives each new name one of the next ids, all different. |
| `Kernel.GrownConsistent` | crates/segwire-daemon/src/netlink.rs:124-140 | Whatever set of new names is created, in whatever order, entries stay under their own name, ids stay distinct and below the counter. |
| `StateManager.NamespaceStateManager.NeedsSync` | crates/segwire-daemon/src/namespace_state.rs:140-145 | A synchronization is due exactly unless the time since the last one is between zero and the interval; a clock set back makes it due. |
| `StateManager.NamespaceStateManager.CreateNewNamespace` | crates/segwire-daemon/src/namespace_state.rs:382-568 | The new table and kernel are those of the specified creation: an Active entry and a new namespace when the kernel accepts the name, else a Failed entry and an unchanged kernel; no entry is left Creating. |
| `StateManager.NamespaceStateManager.UpdateExistingNamespace` | crates/segwire-daemon/src/namespace_state.rs:571-639 | Only the entry of the updated name changes: its details follow the file, its time is now, and it becomes Active if the kernel reports it active. |
| `StateManager.NamespaceStateManager.ProcessConfiguredNamespace` | crates/segwire-daemon/src/namespace_state.rs:267-324 | The verdict and the new entry depend only on the world as it stood when the synchronization began, whatever other names were processed since; the kernel changes only for the verdict Created. |
| `StateManager.NamespaceStateManager.ProcessConfigured` | crates/segwire-daemon/src/namespace_state.rs:196-218 | After the loop over the configured names, visited in any order, table, kernel and lists are those of all names processed at once against the starting world. |
| `StateManager.NamespaceStateManager.ReportUnconfigured` | crates/segwire-daemon/src/namespace_state.rs:221-239 | Exactly the managed names without a file are added as conflicts asking for deletion, each once. |
| `StateManager.NamespaceStateManager.DropUntracked` | crates/segwire-daemon/src/namespace_state.rs:242-254 | Exactly the tracked names that are neither configured nor managed leave the table, and they are what is reported as deleted. |
| `StateManager.NamespaceStateManager.SynchronizeState` | crates/segwire-daemon/src/namespace_state.rs:154-264 | One call has the exact effect stated by Reconcile.Synced, for every order in which the maps are visited; a failed listing reports one error and changes neither the table nor the time of the last synchronization. |
| `StateManager.NamespaceStateManager.ResolveConflict` | crates/segwire-daemon/src/namespace_state.rs:732-788 | Creates the configured namespace or deletes the stray one, with the stated effect on table and kernel, and says exactly when it succeeds. |
| `StateManager.NamespaceStateManager.PerformMaintenance` | crates/segwire-daemon/src/namespace_state.rs:814-834 | Removes exactly the failed entries whose recorded second lies more than an hour back. |
| `StateManager.NamespaceStateManager.GetStateStats` | crates/segwire-daemon/src/namespace_state.rs:791-811 | Each count is the size of its class of entries and the four counts add up to the whole table. |
| `Convergence.SyncOrderIndependent` | crates/segwire-daemon/src/namespace_state.rs:172-263 | Two synchronizations of the same world, with maps visited in different orders, end in the same table, the same names and counter, the same lists up to order, and kernels equal but for which new id went to which new name. |
| `Convergence.VerdictsPartition` | crates/segwire-daemon/src/namespace_state.rs:196-218 | Created, updated, failed, conflicting and unchanged names partition the configured names: their numbers add up. |
| `Convergence.ConflictsCount` | crates/segwire-daemon/src/namespace_state.rs:221-239 | The conflicts are as many as the tracked names the kernel lost plus the managed names without a file. |
| `Convergence.SyncTracks` | crates/segwire-daemon/src/namespace_state.rs:196-254 | Afterwards the tracked names are the configured ones and those formerly tracked that the kernel still manages. |
| `Convergence.SyncDrops` | crates/segwire-daemon/src/namespace_state.rs:242-254 | A name is reported as deleted if and only if it was tracked and no longer is. |
| `Convergence.SyncOnlyCreates` | crates/segwire-daemon/src/namespace_state.rs:172-263 | A synchronization never removes or alters a kernel namespace; it adds exactly the names reported as created, which were configured, absent and valid. |
| `Convergence.SyncConsistent` | crates/segwire-daemon/src/netlink.rs:124-140 | A synchronization keeps the kernel's ids distinct and below its counter. |
| `SyncEffects.VerdictIs` | crates/segwire-daemon/src/namespace_state.rs:281-323 | The verdict on a configured name from what is tracked, managed, valid, free and out of date, with every case spelled out. |
| `SyncEffects.ReportedNames` | crates/segwire-daemon/src/namespace_state.rs:172-263 | A name is reported as created, updated or deleted exactly in the stated cases. |
| `SyncEffects.ReportedConflicts` | crates/segwire-daemon/src/namespace_state.rs:292-308 | A creation conflict is reported exactly for a configured tracked name that is not managed, a deletion conflict exactly for a managed name without a file. |
| `SyncEffects.ReportedErrors` | crates/segwire-daemon/src/namespace_state.rs:209-217 | An error is reported exactly for a configured name that is neither tracked nor managed and cannot be created. |
| `SyncEffects.ReportedOnce` | crates/segwire-daemon/src/namespace_state.rs:172-263 | No list of a result holds anything twice. |
| `SyncEffects.TrackedAfterSync` | crates/segwire-daemon/src/namespace_state.rs:196-254 | Exactly configured names and tracked managed names are tracked afterwards, and an entry without a file is untouched. |
| `SyncEffects.NewEntry` | crates/segwire-daemon/src/namespace_state.rs:642-725 | A created or adopted name gets an active entry made now for its file, whose interfaces, routes and DNS lists are those of the file, field by field. |
| `SyncEffects.FailedEntry` | crates/segwire-daemon/src/namespace_state.rs:556-566 | A name that cannot be created gets a failed entry made now for its file that shows nothing. |
| `SyncEffects.KnownEntry` | crates/segwire-daemon/src/namespace_state.rs:632-725 | A tracked entry keeps its name, path and creation time; out of date it is made to show the interfaces, routes and DNS lists of its file and follows an active kernel, otherwise only its time changes, and without its namespace nothing does. |
| `SyncEffects.NamespaceAfterSync` | crates/segwire-daemon/src/netlink.rs:124-140 | Existing namespaces are untouched; a created one is active under its own name and path with one of the next ids. |
| `SyncEffects.ResolvedByCreation` | crates/segwire-daemon/src/namespace_state.rs:743-765 | Resolving a missing namespace creates it with an active entry that shows its file, records a failure when it cannot be created, and does nothing without a file. |
| `SyncEffects.ResolvedByDeletion` | crates/segwire-daemon/src/namespace_state.rs:767-785 | Resolving a stray namespace removes it and its entry, or nothing when it cannot be deleted. |
| `SyncEffects.MaintainedEntries` | crates/segwire-daemon/src/namespace_state.rs:818-833 | Maintenance drops exactly the failed entries recorded more than 3600 seconds ago and keeps the others as they are. |
| `Convergence.VerdictAgain` | crates/segwire-daemon/src/namespace_state.rs:327-354 | The verdict on a name in a second synchronization follows from its verdict in the first: conflicting or failed becomes conflicting, anything else becomes unchanged unless the file is dated later than the first synchronization. |
| `Convergence.Quiescence` | crates/segwire-daemon/src/namespace_state.rs:267-354 | A synchronization right after another creates, drops and fails nothing and leaves the kernel alone; it updates exactly the files dated after the first one, and its conflicts are the first one's plus one per creation that failed in the first. |
| `Convergence.ResolveAllPointwise` | crates/segwire-daemon/src/namespace_state.rs:732-788 | Resolving conflicts on distinct names, in any order, does to each name what resolving its conflict alone does and nothing to any other name. |
| `Convergence.Converges` | crates/segwire-daemon/src/namespace_state.rs:154-264 | Synchronize, resolve each reported conflict once in any order, synchronize again: the managed namespaces equal the configured ones if and only if every name to be created or deleted is valid, and then the table tracks exactly those names and the second result is empty. |
| `Runs.StepSound` | crates/segwire-daemon/src/namespace_state.rs:267-324 | One operation keeps the table truthful, the ids in order and the pending creations possible. |
| `Runs.RunSound` | crates/segwire-daemon/src/namespace_state.rs:382-568 | In every state of every run of configuration changes, synchronizations, resolutions and maintenance from an empty table, every entry is Active and in the kernel or Failed and not in it, and ids are distinct and used up. |
| `Runs.ResolveTruthfulIff` | crates/segwire-daemon/src/namespace_state.rs:732-788 | Resolving a conflict keeps the table truthful if and only if it does not create a configured namespace that the kernel already has, which would be recorded as failed. |
| `Runs.WaitingRun` | crates/segwire-daemon/src/namespace_state.rs:297-308 | While its file stays loaded, no conflict on it is resolved and no maintenance finds it stale, a failed name keeps its entry as recorded and is never attempted. |
| `Runs.RetrySpacing` | crates/segwire-daemon/src/namespace_state.rs:814-833 | Between a recorded failure and the next attempt lies a maintenance pass more than 3600 s after the recorded second. |
| `Runs.RetryAfterDrop` | crates/segwire-daemon/src/namespace_state.rs:319-322 | A synchronization directly behind a maintenance pass attempts the failed name if and only if the pass found the entry stale, which is also when the entry was dropped. |
| `Runs.NextSyncAttempts` | crates/segwire-daemon/src/namespace_state.rs:319-322 | In a run, the next synchronization attempts a configured name that is neither tracked nor in the kernel, whatever other operations come before it. |
| `Runs.FirstRetryIff` | crates/segwire-daemon/src/namespace_state.rs:814-833 | While its file stays loaded and no conflict on it is resolved, a failed name is first attempted again by an operation if and only if that is the first synchronization behind the first maintenance pass that finds the failure more than 3600 s old. |
| `Substitution.ResolveDefault` | crates/segwire-common/src/utils.rs:248-261 | A reference with a default gives the variable's value if it is set and not empty, else the default; the first separator divides, whatever the default contains. |
| `Substitution.ResolveAlternate` | crates/segwire-common/src/utils.rs:263-276 | A reference with an alternate gives the alternate if the variable is set and not empty, else nothing. |
| `Templates.ReferenceValue` | crates/segwire-common/src/utils.rs:293-304 | A plain reference takes the configuration's value whatever the process environment holds, else that of the process environment, and fails without either. |
| `Substitution.MatchEndIff` | crates/segwire-common/src/utils.rs:202 | A reference is exactly a dollar sign and an opening brace, at least one character that is no closing brace, and a closing brace. |
| `Substitution.MatchesCover` | crates/segwire-common/src/utils.rs:214-217 | The located spans are references, and every reference begins in one of them. |
| `Substitution.RoundErrorIff` | crates/segwire-common/src/utils.rs:220-228 | A round fails with an error if and only if that is the error of the rightmost reference that fails. |
| `Substitution.RewriteIsJoined` | crates/segwire-common/src/utils.rs:214-228 | Left-to-right rewriting equals joining the literal gaps with the resolved references at the precomputed positions. |
| `Substitution.ReplaceFromRight` | crates/segwire-common/src/utils.rs:220-228 | Replacing the spans in place, from the right, with offsets taken beforehand, yields the gaps joined with the resolved references for replacements of any length, or the error of the rightmost reference that fails. |
| `Substitution.RewriteInPlace` | crates/segwire-common/src/utils.rs:214-228 | One in-place round equals simultaneous left-to-right rewriting and changes the string exactly when it holds a reference. |
| `Substitution.RewriteWithoutMatch` | crates/segwire-common/src/utils.rs:214-228 | A string without a reference is rewritten to itself. |
| `Substitution.SubstituteEnvVars` | crates/segwire-common/src/utils.rs:195-238 | The loop computes the bounded iteration of rounds specified by SubstituteFrom, for every input and environment. |
| `Substitution.SubstituteIff` | crates/segwire-common/src/utils.rs:202-237 | Substitution returns r if and only if eight rounds succeed and lead to r and r holds no reference. |
| `Substitution.TooLate` | crates/segwire-common/src/utils.rs:209-235 | After nine changing rounds the result is an error whatever the string has become: the limit in effect is eight rounds. |
| `Substitution.SubstituteErrors` | crates/segwire-common/src/utils.rs:209-235 | An unresolved name is reported exactly when one of ten rounds fails on it, too many rounds exactly when none of ten fails but eight do not reach a string without references. |
| `Substitution.SubstituteIdempotent` | crates/segwire-common/src/utils.rs:202-237 | A result holds no reference, and substituting it again returns it, in any environment. |
| `Templates.RewriteRender` | crates/segwire-common/src/utils.rs:212-228 | On a rendered template one round replaces every reference by its rendered definition, and fails exactly when some name is undefined. |
| `Templates.NoMatchIff` | crates/segwire-common/src/utils.rs:202-218 | The rewriter sees a reference in a rendered template if and only if the template has one. |
| `Templates.UnfoldStep` | crates/segwire-common/src/utils.rs:206-229 | Unfolding every reference once uses up exactly one level of nesting and does not change the full expansion. |
| `Templates.RoundsExpand` | crates/segwire-common/src/utils.rs:206-229 | n rounds lead to a string without references if and only if the template nests at most n deep in defined names, and the string is the full recursive expansion. |
| `Templates.SubstituteExpands` | crates/segwire-common/src/utils.rs:195-238 | Substituting a rendered template returns r if and only if every reachable name is defined within eight levels and r is the full recursive expansion. |
| `Templates.ExpandStable` | crates/segwire-common/src/utils.rs:206-229 | The full expansion does not depend on the bound under which it exists. |
| `Templates.CircularNeverNests` | crates/segwire-common/src/utils.rs:231-235 | A template that refers into a set of names, each of whose definitions refers into the set again, has no expansion at any depth. |
| `Templates.CycleIsError` | crates/segwire-common/src/utils.rs:231-235 | Substituting a template that refers to a name on a cycle of definitions of any length is an error. |
| `NetlinkSocket.ParseResponseBatch` | crates/segwire-netlink/src/lib.rs:412-466 | The offset loop ends, keeps every slice within the datagram and computes the specified walk. |
| `NetlinkSocket.Socket.Request` | crates/segwire-netlink/src/lib.rs:120-161 | The receive loop returns what the specified collection over the datagrams returns and uses up one sequence number. |
| `NetlinkSocket.Socket.NextSeq` | crates/segwire-netlink/src/lib.rs:109-113 | Hands out the current number and advances it, to zero behind the largest 32-bit number. |
| `NetlinkSocket.WalkOver` | crates/segwire-netlink/src/lib.rs:418-462 | Walking over aligned messages is reading them one by one and then walking on behind them. |
| `NetlinkSocket.FramedIsClassified` | crates/segwire-netlink/src/lib.rs:427-462 | Any message of at least 16 bytes that starts with its own length is classified: data is collected and the walk goes on at the next multiple of four, an end or acknowledgement completes the batch, an error or undecodable message ends it. |
| `NetlinkSocket.BadLengthEnds` | crates/segwire-netlink/src/lib.rs:422-429 | A length field that is cut off, below 16 or beyond the data ends the walk with what was collected. |
| `NetlinkSocket.WalkIsRead` | crates/segwire-netlink/src/lib.rs:412-466 | Walking a datagram reads exactly the messages it carries, in order, with or without padding behind the last one. |
| `NetlinkSocket.DumpReadsStream` | crates/segwire-netlink/src/lib.rs:143-158 | A dump's answer is that of reading the concatenated stream of messages. |
| `NetlinkSocket.SplitInvariance` | crates/segwire-netlink/src/lib.rs:140-158 | The answer to a dump is the same however its messages are spread over datagrams. |
| `NetlinkSocket.DumpAnswer` | crates/segwire-netlink/src/lib.rs:140-158 | A dump returns exactly the data messages before the first other message, in order, if that one ends or acknowledges; a kernel error or an undecodable message before that point gives that error, and a stream that dries up gives a receive error. |
| `NetlinkSocket.SplitMattersWithoutDump` | crates/segwire-netlink/src/lib.rs:151-154 | Without the dump flag the split matters: the request ends with the first datagram that holds data. |
| `NetlinkSocket.SplitFreeIff` | crates/segwire-netlink/src/lib.rs:143-158 | Without the dump flag the answer is the same for every split if and only if the stream does not start with data, or starts with one data message followed by an end, an acknowledgement or nothing. |
| `NetlinkSocket.NonDumpAnswer` | crates/segwire-netlink/src/lib.rs:143-158 | A request that is no dump is answered by the first datagram that carries a message: with its data, or with the error that follows them there. |
| `NetlinkSocket.ExclusiveCreateIsDump` | crates/segwire-netlink/src/lib.rs:140 | The dump test holds exactly when one of its two bits is set, so it takes an exclusive create for a dump. |
| `GenericNetlink.ParseFamilyReply` | crates/segwire-netlink/src/lib.rs:246-290 | Classifies a reply by its length, type and error code, and otherwise returns the id and visits the offsets that the specified scan gives. |
| `GenericNetlink.ScanEncoded` | crates/segwire-netlink/src/lib.rs:268-290 | On encoded attributes, followed by nothing that could be another one, the walk stays within the message, visits each attribute boundary once and in order, and returns the id of the first FAMILY_ID attribute of at least six bytes, or nothing if there is none. |
| `GenericNetlink.BoundariesAdvance` | crates/segwire-netlink/src/lib.rs:268-285 | The visited offsets grow by at least four at every step. |
| `GenericNetlink.FirstFamilyIs` | crates/segwire-netlink/src/lib.rs:278-281 | The result is the 16-bit number in the first attribute of kind 1 with at least two bytes of payload. |
| `GenericNetlink.BoundaryAt` | crates/segwire-netlink/src/lib.rs:268-285 | The k-th offset visited is where the encoding of the k-th attribute begins, and no id stands before it. |
| `GenericNetlink.AttributeLayout` | crates/segwire-netlink/src/lib.rs:235-239 | An attribute is its length with the header, its kind, its payload and zeros up to a multiple of four. |
| `GenericNetlink.CodeIsTwosComplement` | crates/segwire-netlink/src/lib.rs:254-256 | The error code is a signed 32-bit number in two's complement. |
| `GenericNetlink.EncodeGetFamily` | crates/segwire-netlink/src/lib.rs:214-239 | The request built by copying fields into a zeroed buffer is exactly the specified bytes, padding included. |
| `GenericNetlink.GetFamilyLayout` | crates/segwire-netlink/src/lib.rs:219-239 | Where the length, type, flags, sequence number, zero port, command, version, zero padding and attribute of the request stand. |
| `GenericNetlink.GetFamilyIsOneAttribute` | crates/segwire-netlink/src/lib.rs:214-239 | The request holds exactly one attribute, the terminated name, and ends where its own length field says. |
| `GenericNetlink.NameLengthFieldIff` | crates/segwire-netlink/src/lib.rs:215-237 | The 16-bit attribute length is right if and only if the name leaves room for it. |
| `ConfigManager.ConfigManager.ScanNamespaceConfigs` | crates/segwire-daemon/src/config.rs:257-342 | A scan that can read the directory keys the cache by full name with the entry of one file that supplies it, misses no name and returns those names; otherwise nothing changes. |
| `ConfigManager.ConfigManager.ReloadNamespaceConfig` | crates/segwire-daemon/src/config.rs:417-454 | Replaces the one entry of the file's current full name; an unreadable or foreign file changes nothing. |
| `ConfigManager.ConfigManager.RemoveNamespaceConfig` | crates/segwire-daemon/src/config.rs:457-472 | Afterwards no entry comes from the path and every other entry is unchanged; the returned name is one that was removed. |
| `ConfigManager.ConfigManager.ReloadMasterConfig` | crates/segwire-daemon/src/config.rs:188-217 | A master file that does not load leaves the prefix as it was. |
| `ConfigManager.ConfigManager.HandleFileEvent` | crates/segwire-daemon/src/config.rs:755-807 | Each kind of event has exactly its effect on the cache and returns exactly the name concerned; a changed master file that loads sets the prefix at once and leads to a rescan under it, and keeps the new prefix when that rescan fails; the cache stays keyed by full names that carry the prefix. |
| `ConfigManager.ScannedIsKeyed` | crates/segwire-daemon/src/config.rs:383-411 | A scan keys every entry by its own full name, which carries the prefix. |
| `ConfigManager.HandledKeeps` | crates/segwire-daemon/src/config.rs:755-807 | Handling any event keeps the cache keyed by full names that carry the prefix. |
| `ConfigManager.ScanSeesIff` | crates/segwire-daemon/src/config.rs:298-302 | The scan sees exactly file names that end with .toml and have something before it. |
| `ConfigManager.LoadedFile` | crates/segwire-daemon/src/config.rs:345-414 | Loading fails without a readable file, skips foreign names, and else gives the contents and time of the file under its full name. |
| `ConfigManager.ScanFinds` | crates/segwire-daemon/src/config.rs:257-342 | A scan has an entry under the prefixed name for every plainly named file it sees, and under its own name for every owned one. |
| `ConfigManager.ScanHolds` | crates/segwire-daemon/src/config.rs:257-342 | An entry of a scan has the contents, time, path and full name of a loaded, accepted file that the scan sees. |
| `ConfigManager.HandledChange` | crates/segwire-daemon/src/config.rs:417-454 | An event that is no deletion sets the one entry of an accepted file and changes nothing otherwise. |
| `ConfigManager.HandledDeletion` | crates/segwire-daemon/src/config.rs:457-472 | A deletion removes exactly the entries that come from the file. |
| `ConfigAgreement.ScannedAgrees` | crates/segwire-daemon/src/config.rs:257-342 | When every file with a home supplies that name, no two files share one and the others yield nothing, a scan agrees with the disk at every path. |
| `ConfigAgreement.AgreementIsScan` | crates/segwire-daemon/src/config.rs:257-342 | A cache that agrees with the disk at every path and holds nothing else is what a fresh scan builds. |
| `ConfigAgreement.StepAgrees` | crates/segwire-daemon/src/config.rs:755-807 | Handling an event that fits the disk, or a rescan, brings its files up to date; any other operation keeps the agreement at every file that it does not change or wrongly report as deleted. |
| `ConfigAgreement.RunAgrees` | crates/segwire-daemon/src/config.rs:755-807 | In every state of every run of changes, handled events and rescans, with events delayed, dropped, repeated or made up, the cache agrees with the disk at each file for which a fitting event was handled since it was last outdated. |
| `ConfigAgreement.IncrementalIsScan` | crates/segwire-daemon/src/config.rs:755-807 | Once every changed file has had a fitting event handled since its last change, the cache equals a fresh scan of the disk; foreign files and files that are not TOML may be around. |
| `ConfigAgreement.DebouncedSave` | crates/segwire-daemon/src/config.rs:704-711 | A file changed twice, with only one event about it handled, after both changes, is up to date: the cache equals a fresh scan. |
| `ConfigAgreement.HandledIsScanIff` | crates/segwire-daemon/src/config.rs:417-472 | After any change at one file, handling any event about it turns a scanned cache into what a scan builds if and only if, for a deletion, no file supplies a name that the cache holds from it and it supplies none that the cache lacks; for any other event, it still supplies every name that the cache holds from it and a scan would see what it yields. |
| `ConfigAgreement.ReloadIsScanIff` | crates/segwire-daemon/src/config.rs:417-454 | With distinct full names, reloading a changed file is right if and only if the file still supplies the name it supplied before. |
| `ConfigAgreement.RemovalIsScan` | crates/segwire-daemon/src/config.rs:457-472 | With distinct full names, handling the deletion of a file that is gone always leaves what a scan builds. |
| `ConfigAgreement.RenameLeavesStaleEntry` | crates/segwire-daemon/src/config.rs:417-439 | A file that changes its namespace name leaves its old entry behind, which a scan would not build. |
| `ConfigAgreement.BrokenKeepsStaleEntry` | crates/segwire-daemon/src/config.rs:445-452 | A file that stops loading keeps its old entry, which a scan would not build. |
| `ConfigAgreement.WatcherScanDifference` | crates/segwire-daemon/src/config.rs:690-696 | The watcher's test and the scan's differ on exactly one file name, the bare extension. |
| `ConfigAgreement.BareExtensionIsNotScanned` | crates/segwire-daemon/src/config.rs:298-302 | A file named just by the extension is loaded on an event but never by a scan. |
| `Debouncer.Watcher.Offer` | crates/segwire-daemon/src/config.rs:669-737 | With the pruned table the watcher decides on every event as one that never forgets, and passes on the kind of event the mask stands for. |
| `Debouncer.OfferCovers` | crates/segwire-daemon/src/config.rs:735-736 | Pruning forgets only what is too old to matter for any later event. |
| `Debouncer.KeptRecords` | crates/segwire-daemon/src/config.rs:712-736 | Behind an accepted event the table holds that event and exactly the records of less than ten windows. |
| `Debouncer.EventKinds` | crates/segwire-daemon/src/config.rs:714-728 | Creation goes before modification before deletion; any other mask is not passed on. |
| `Debouncer.RememberedIsLast` | crates/segwire-daemon/src/config.rs:704-711 | The time recorded for a file is that of the last event about it that got through. |
| `Debouncer.DroppedIff` | crates/segwire-daemon/src/config.rs:704-711 | An event is dropped if and only if an earlier one about the same file got through less than a window before. |
| `Debouncer.PassedApart` | crates/segwire-daemon/src/config.rs:704-711 | Two events about the same file that get through are at least a window apart. |
| `Text.TrimSplits` | crates/segwire-common/src/wireguard.rs:132 | Trimming takes white space off both ends, all of it and nothing else. |
| `Text.LastLines` | crates/segwire-common/src/wireguard.rs:131 | A line ends at a line feed with the carriage return before it, and the last line may lack both. |
| `Text.WordsSeparated` | crates/segwire-daemon/src/netlink.rs:735-736 | Words are separated by any amount of white space. |
| `Text.PartsTrimmed` | crates/segwire-common/src/wireguard.rs:172-176 | A list is cut at each comma and its parts are trimmed. |
| `ResolvConf.Write` | crates/segwire-daemon/src/netlink.rs:672-681 | The appended text is the specified list of lines. |
| `ResolvConf.Read` | crates/segwire-daemon/src/netlink.rs:730-742 | The line loop computes the specified reading. |
| `ResolvConf.WrittenLines` | crates/segwire-daemon/src/netlink.rs:672-681 | A nameserver line per server, one search line if there are domains, an options line per option, in order. |
| `ResolvConf.LineRead` | crates/segwire-daemon/src/netlink.rs:731-740 | A nameserver or options line adds its value, a search line replaces the domains, any other line is ignored. |
| `ResolvConf.ReadLinesClean` | crates/segwire-daemon/src/netlink.rs:730-742 | Whatever is read consists of trimmed one-line servers and options and of one-word domains. |
| `ResolvConf.RoundTripIff` | crates/segwire-daemon/src/netlink.rs:672-681 | Reading back what was written gives the same servers, search domains and options in order if and only if servers and options are trimmed, not empty and on one line, and domains are single words. |
| `WgQuick.ParseWgQuickRaw` | crates/segwire-common/src/wireguard.rs:126-231 | The section state machine computes the specified parse; a peer is open exactly in a peer section, so the unwrap is safe. |
| `WgQuick.CommentsChangeNothing` | crates/segwire-common/src/wireguard.rs:134-137 | A blank line or a line that starts with # or ; can be put anywhere without changing the result. |
| `WgQuickLines.SectionRead` | crates/segwire-common/src/wireguard.rs:139-156 | The current section is that of the last header read. |
| `WgQuickLines.UnknownSettingsIgnored` | crates/segwire-common/src/wireguard.rs:187-192 | A setting with a key unknown to its section, or before any section, changes nothing wherever it stands. |
| `WgQuickLines.InterfaceSettings` | crates/segwire-common/src/wireguard.rs:164-186 | What each of the five keys of [Interface] sets, and that a malformed number is an error. |
| `WgQuickLines.PeerSettings` | crates/segwire-common/src/wireguard.rs:194-214 | What each of the five keys of [Peer] sets in the open peer, and that a malformed number is an error. |
| `WgQuickLines.NumberForms` | crates/segwire-common/src/wireguard.rs:167-171 | A number is one or more decimal digits with or without a plus sign, up to its limit. |
| `WgQuickLines.DigitAppended` | crates/segwire-common/src/wireguard.rs:167-171 | Each further digit counts itself and ten times the digits before it, leading zeros included. |
| `WgQuickLines.HeadersRead` | crates/segwire-common/src/wireguard.rs:139-156 | A header closes the open peer and opens its section, with an empty peer for [Peer]; any other name is an error. |
| `WgQuickLines.MissingEquals` | crates/segwire-common/src/wireguard.rs:158-162 | A line that is no comment, no header and has no equals sign is an error. |
| `WgQuickLines.ParseEnds` | crates/segwire-common/src/wireguard.rs:218-231 | The first error ends the parse, a file without a private key is an error, and the last peer counts. |
| `WgQuick.PeersRead` | crates/segwire-common/src/wireguard.rs:139-156 | A successful read adds the completed open peer and then one peer per further header, in order. |
| `WgQuick.ParsedPeers` | crates/segwire-common/src/wireguard.rs:139-231 | A successful parse yields one peer per [Peer] header, in order, each read from the lines of its own section alone. |
| `WgQuickRoundTrip.DecimalRoundTrip` | crates/segwire-common/src/wireguard.rs:167-171 | Parsing the decimal digits of a number gives the number. |
| `WgQuickRoundTrip.LineIsKeyValue` | crates/segwire-common/src/wireguard.rs:158-162 | A rendered line is split at its first "=" into its key and its value, also when the value holds "=". |
| `WgQuickRoundTrip.ListIsWritable` | crates/segwire-common/src/wireguard.rs:172-176 | A comma-joined list is read back item by item, empty items included. |
| `WgQuickRoundTrip.ReadConfig` | crates/segwire-common/src/wireguard.rs:126-231 | Parsing the canonical lines of a clean configuration gives that configuration. |
| `WgQuickRoundTrip.ParsedIsClean` | crates/segwire-common/src/wireguard.rs:126-231 | Whatever parses has a private key, trimmed one-line values, items without commas and numbers in range. |
| `WgQuickRoundTrip.RoundTripIff` | crates/segwire-common/src/wireguard.rs:126-231 | Parsing the canonical text of a configuration gives it back if and only if it has a private key and its values are trimmed one-liners, its items free of commas and its numbers in range. |
| `Locks.CodeDisciplined` | crates/segwire-daemon/src/dbus_service.rs:748-817 | Every procedure takes the mutexes it takes in the order service, config, state and releases all of them. |
| `Locks.SynchronizeSteps` | crates/segwire-daemon/src/event_loop.rs:405-459 | A synchronization takes the configuration, then the state, and releases them in the opposite order. |
| `Locks.LoopSteps` | crates/segwire-daemon/src/event_loop.rs:283-301 | The steps of the initial scan, the start of monitoring, the check for a due synchronization and the handling of a file event. |
| `Locks.QuestionSteps` | crates/segwire-daemon/src/dbus_service.rs:132-141 | The handlers hold the service throughout and, when authorized, take these mutexes in between. |
| `Locks.DeletionSteps` | crates/segwire-daemon/src/dbus_service.rs:788-817 | A deletion takes configuration and state, and the state again when the kernel agreed. |
| `Locks.RestartSteps` | crates/segwire-daemon/src/dbus_service.rs:428-440 | A restart reads the configuration, deletes, and creates only behind a deletion that succeeded. |
| `Locks.ShutdownSteps` | crates/segwire-daemon/src/event_loop.rs:483-520 | A shutdown takes the configuration briefly, again for the list of names and once per usable namespace. |
| `Locks.RunOrderly` | crates/segwire-daemon/src/event_loop.rs:283-301 | In every reachable interleaving each mutex has at most one holder and what is left of each thread respects the order. |
| `Locks.NoDeadlock` | crates/segwire-daemon/src/event_loop.rs:283-301 | No reachable interleaving of any number of threads has every unfinished thread blocked. |
| `Locks.NoReentry` | crates/segwire-daemon/src/event_loop.rs:398-459 | No thread ever waits for a mutex it holds, nor for the configuration while it holds the state. |
| `Locks.Drains` | crates/segwire-daemon/src/event_loop.rs:483-520 | From every reachable state all threads can be brought to their ends with every mutex free, in as many steps as they have left. |
| `Interfaces.HostNetwork.MoveInterfaceToNamespace` | crates/segwire-daemon/src/netlink.rs:287-329 | Moves an interface in exactly when all checks pass, else changes nothing. |
| `Interfaces.HostNetwork.MoveInterfaceToDefault` | crates/segwire-daemon/src/netlink.rs:332-373 | Moves an interface back exactly when it is inside; an interface that is not there counts as success and changes nothing. |
| `Interfaces.HostNetwork.CreateAndMove` | crates/segwire-daemon/src/namespace_state.rs:491-496 | Creating a namespace moves in the listed interfaces one by one and skips those that cannot move. |
| `Interfaces.HostNetwork.CleanUpNamespace` | crates/segwire-daemon/src/event_loop.rs:512-540 | Moves the listed interfaces back, then deletes the namespace. |
| `Interfaces.HostNetwork.CleanUpAll` | crates/segwire-daemon/src/event_loop.rs:498-548 | Cleaning up every configured namespace, in any order, leaves every interface outside and none lost, and deletes exactly the validly named configured namespaces. |
| `Interfaces.MovedInConfined` | crates/segwire-daemon/src/namespace_state.rs:491-496 | Moving interfaces in keeps each one inside a namespace whose file lists it. |
| `Interfaces.ProvisionedAt` | crates/segwire-daemon/src/netlink.rs:287-329 | Creating a namespace moves an interface in if and only if the name is valid and free and the interface is listed, valid, outside and not the loopback device. |
| `Interfaces.FirstTakesIt` | crates/segwire-daemon/src/namespace_state.rs:491-496 | When two files list the same interface, the namespace created first keeps it. |
| `Interfaces.ValidInterfaceIff` | crates/segwire-common/src/utils.rs:11-33 | An interface name is one to fifteen letters, digits, hyphens and underscores. |
| `Interfaces.CleanedUpConfined` | crates/segwire-daemon/src/event_loop.rs:512-540 | Cleaning up one namespace brings back exactly the interfaces inside it and loses none. |
| `Interfaces.InterfacesRestored` | crates/segwire-daemon/src/event_loop.rs:488-548 | Whatever configured namespaces were created, in whatever order, also when two files list the same interface, the shutdown cleanup brings every interface back. |
| `Interfaces.LostIff` | crates/segwire-daemon/src/event_loop.rs:515-540 | One cleanup loses an interface if and only if it is inside the namespace being deleted and not on the list loaded for it by then, and touches no interface outside that namespace. |
| `Interfaces.LostInCleanupIff` | crates/segwire-daemon/src/event_loop.rs:498-548 | A whole cleanup, with files unloaded or rewritten since the names were taken, loses an interface if and only if it is inside one of those namespaces and not on the list loaded for it by then. |
| `Interfaces.UnloadedConfigurationLoses` | crates/segwire-daemon/src/event_loop.rs:515-527 | A namespace whose file is no longer loaded is deleted with its interfaces inside. |

## Left out

- StateManager.NamespaceStateManager.SynchronizeState: one call reads the clock once, while the source reads it for each entry; whether the listing fails is a parameter, since the simulated backend never fails it.
- StateManager.NamespaceStateManager.CreateNewNamespace: links, addresses, routes and DNS are applied with failures only logged, so they do not show in table or kernel; only physical interface moves are modelled, in Interfaces. Creation fails for the simulated backend's reasons, not for those of a real kernel.
- StateManager.NamespaceStateManager.PerformMaintenance: a clock less than an hour after the epoch, on which the source's subtraction would fail, counts as finding nothing stale.
- Kernel.SimulatedKernel.CreateNamespace: ids are unbounded, so the counter does not wrap.
- Runs.RunSound: runs leave out the D-Bus restart, which stores a Creating entry that nothing promotes, and the D-Bus deletion, which changes the kernel outside the state mutex; the prefix stays fixed.
- ConfigAgreement.IncrementalIsScan: asks that each file keeps supplying one full name of its own, or yields nothing, throughout the run, and that the prefix stays fixed; ConfigAgreement.HandledIsScanIff says what one event does without that.
- ConfigManager.ConfigManager.ScanNamespaceConfigs: a loaded file is its parsed contents with a time; parsing TOML, metadata and directory entries that are not files are not modelled.
- Debouncer.Watcher.Offer: reading inotify, its errors and names that are not valid text are not modelled; the clock is monotone.
- NetlinkSocket.ParseResponseBatch: the typed decoder is an arbitrary classification of the bytes of one message, and datagrams are as the socket returns them, cut at its buffer size.
- GenericNetlink.ParseFamilyReply: asks that in a reply that is no error every attribute it meets ends within the received bytes, which the source does not check; integers are little-endian.
- Substitution.RewriteInPlace: the regular expression is modelled by what it matches, not by an engine, and strings are sequences of characters, so byte offsets are character offsets.
- WgQuick.ParseWgQuickRaw: the conversion of the parsed configuration into keys, addresses and endpoints copies or rejects field by field and is not modelled.
- Locks.CodeDisciplined: only acquisitions and releases are modelled, not what the threads do in between, poisoned mutexes or the locks inside the D-Bus library.
- Interfaces.InterfacesRestored: the kernel is taken to carry out a move when the checks before it pass, and interfaces are physical with distinct names; Interfaces.LostInCleanupIff covers lists that changed since creation.
- The framing of general generic netlink requests repeats that of the family lookup.
- The validators of addresses, CIDR ranges and domains, and the duplicate checks.
- The command-line program, the D-Bus transport and its signals, authorization, the namespace entry helper and the permission checks.
- Logging, error texts and suggestions for repair.
