# Verified model of the accelerator core

The program takes over system settings (the hosts file, the DNS servers of network adapters,
the system proxy) and can undo that, answers DNS queries locally with a timed cache, rewrites
proxied pages, dials upstreams through ordered candidates or SOCKS5, and talks to its
privileged helper over a length-prefixed pipe. This project models those parts in Dafny and
proves what they promise over every input and every run.

`dafny verify dfyconfig.toml` checks everything.

| file | part of the program |
|---|---|
| `Basics.dfy`, `Text.dfy`, `Ordering.dfy` | shared values, string functions, sorting by fields |
| `HostsText.dfy`, `HostsSystem.dfy` | the managed block of the hosts file; Apply and Restore calls on a disk |
| `SystemDns.dfy`, `SystemDnsRun.dfy` | saving one adapter's DNS; Apply and Restore as interruptible steps |
| `SystemProxy.dfy` | the same for the system proxy over any settings platform |
| `DnsIntercept.dfy`, `DnsRun.dfy` | the DNS server as a class; any number of its queries interleaved |
| `PageBody.dfy`, `PageEnhance.dfy`, `PagePipeline.dfy` | body edits; the pipeline on values; the pipeline as it mutates a response |
| `Socks5.dfy`, `Upstream.dfy` | the SOCKS5 client; candidates and dial loops |
| `Engine.dfy` | Start and Stop; concurrent Stops |
| `Rules.dfy`, `Resolver.dfy` | rule matcher, export and PAC decision; address policy and resolver cache |
| `PipeFrames.dfy` | pipe frames over partial reads and writes |

## What the code does not keep

Some promises hold only under a condition. The first member named gives the exact condition,
the ones after it an input where the promise fails.

- A hosts file with a line that still ends in a carriage return after CRLF folding changes when
  the block is added and removed again (`RemoveUndoesAppend`; `StrayCrCounterexample`).
- A hosts Apply over an existing rollback record loses it, so that no Restore removes an earlier
  block, when its write fails or when it is about another file (`ApplyKeepsRecordExactly`;
  `ReapplyLosesRecord`, `SecondPathLosesRecord`).
- An Apply of system DNS or system proxy over an existing rollback file saves the program's own
  settings as the user's (`SystemDnsRun.ApplyOverIsSafeExactly` and `SystemProxy.ApplyOverIsSafeExactly`;
  `SecondApplyLosesOriginal` in both modules).
- An adapter whose registry value cannot be read, or whose static list is not clean, is not
  restored to what it was (`SaveRestoreRoundTrip`; `AdaptersNotRestored`).
- The system DNS selector `{}` picks every row without a GUID, because both normalise to nothing
  (`SelectorPicks` for rows with one; `BracesPickNoGuid`).
- `getCache` reads the clock twice. When the second reading comes a second or more after expiry
  the remaining time wraps in `uint32` and no TTL is lowered; before expiry every TTL is within
  its deadline, and with a record present only then (`ServedTtlsEndInTime`; `LateReadLowersNothing`).
- A DNS answer holding any record with TTL zero (an OPT record with a zero TTL field, say) is not
  cached by the DNS server (`StoredExactly`; `ZeroTtlIsNeverStored`); the resolver, where zero
  means "absent", caches such an answer for a positive time (`LifetimeIsSmallest`; `ZeroTtlIsKept`).
- Under pass_through a body whose read fails after some bytes, within the limit, is lost: no error is
  returned and nothing of it can be read (`UnloadedKeepsStream`; `FailedReadLosesBody`).
- With `MaxBodySize` at 2^63-1, and only there, the read limit wraps and the body is lost
  (`ReadBodyKeepsStream`; `LargestLimitLosesBody`).
- The PAC script looks hosts up with a plain object, so the one-label host `constructor` is
  proxied without a rule, and a host with a leading dot differs too (`MatchersAgreeExactly`;
  `ConstructorIsProxied`, `BareDotIsNotProxied`).
- The SOCKS5 client goes on when the server picks user/password although it was not offered
  (`OfferedExactly`; `AcceptsUnoffered`).
- A failed system-proxy Apply inside Start is not followed by a restore; a failed system-DNS one
  is (`Lifecycle.Engine.Start`).

## Model

| member | source | states |
|---|---|---|
| HostsText.Format.RemoveManagedBlock | internal/hosts/hosts.go:347-372 | the in-block scanner loop leaves exactly the text specified by scanning the CRLF-folded lines, dropping every line from a begin marker to its end marker, and trimming trailing newlines |
| HostsText.Format.RenderBlock | internal/hosts/hosts.go:331-345 | the block is the begin line, the notice, one line per entry and the end line, each terminated |
| HostsText.Format.AppendManagedBlock | internal/hosts/hosts.go:322-329 | the new file is the cleaned old file, a blank line unless that is empty, and the block |
| HostsText.Format.UnmanagedForm | internal/hosts/hosts.go:347-372 | the cleaned file is its kept lines, each terminated: the line-level normal form the laws below rest on |
| HostsText.Format.ManagedForm | internal/hosts/hosts.go:322-345 | the appended file is its base lines, a separator and the block lines, each terminated |
| HostsText.Format.BodyOfManaged | internal/hosts/hosts.go:322-372 | what the scanner keeps of an appended file is the base lines with one trailing CR stripped from each |
| HostsText.Format.RemoveUndoesAppend | internal/hosts/hosts.go:322-372 | remove(append(f, e)) = remove(f) if and only if no kept line of f ends in CR after folding |
| HostsText.Format.RemoveIdempotent | internal/hosts/hosts.go:347-372 | removing twice is removing once, under exactly the same condition |
| HostsText.Format.AppendReplacesAppend | internal/hosts/hosts.go:322-345 | append(append(f, e1), e2) = append(f, e2) if and only if no base line ends in CR |
| HostsText.Format.NoCrLeftIsSettled | internal/hosts/hosts.go:347-352 | a file without CR after CRLF folding meets that condition |
| HostsText.Format.SettledByUnmanaged | internal/hosts/hosts.go:347-372 | the condition depends only on the cleaned content |
| HostsText.Format.BlockReadsBack | internal/hosts/hosts.go:322-345 | an appended file has exactly one begin line and the lines inside parse back to the entries |
| HostsText.Format.AppendedLines | internal/hosts/hosts.go:322-345 | an appended file, line by line: the kept lines, a blank line, both markers, the notice and one line of address, space and host per entry |
| HostsText.Format.RemovedLines | internal/hosts/hosts.go:347-372 | lines without a begin marker all stay; a block goes with its markers, or to the end of the file without an end marker, and what is around it stays |
| HostsText.Format.UnmanagedHasNoBegin | internal/hosts/hosts.go:347-372 | no begin line survives a removal |
| HostsText.Format.ManagedHasBegin | internal/hosts/hosts.go:322-345 | an appended file has a begin line |
| HostsText.Format.StrayCrCounterexample | internal/hosts/hosts.go:347-372 | for the file holding a, CR the round trip fails |
| HostsText.HostsFormatProper | internal/hosts/hosts.go:331-345 | the program's markers and notice meet the conditions the laws put on a format |
| HostsSystem.Machine.ApplyWithPlatform | internal/hosts/hosts.go:150-192 | the disk and error after an Apply under every failure and crash point, rollback written first and dropped on a failed write |
| HostsSystem.Machine.RestoreWithPlatform | internal/hosts/hosts.go:198-235 | the disk and error after a Restore under every failure and crash point, rollback removed last |
| HostsSystem.CallKeepsUserContent | internal/hosts/hosts.go:150-235 | one call with any configuration and fault leaves the content of a settled file without its block unchanged, whatever is in the other files |
| HostsSystem.RunKeepsUserContent | internal/hosts/hosts.go:150-235 | so does every run of calls |
| HostsSystem.CompletedRestore | internal/hosts/hosts.go:198-235 | after any run, a Restore that completes removes the rollback, changes the recorded file alone and, if that file was settled, leaves exactly the user's content in it |
| HostsSystem.RestoreCompletes | internal/hosts/hosts.go:198-235 | after any run from a disk with no state, whatever failed, an undisturbed Restore finds no state, or returns no error, removes the state and leaves the recorded file without its block |
| HostsSystem.ApplyThenRestore | internal/hosts/hosts.go:150-235 | an undisturbed Apply of a valid configuration leaves the block and a state naming file and entries, and the Restore after it the user content and no state |
| HostsSystem.RefusedCalls | internal/hosts/hosts.go:150-235 | the reasons for which each call refuses, in order, and that it then leaves the disk alone |
| HostsSystem.GuardedRunKeepsRecord | internal/hosts/hosts.go:150-235 | while each Apply begins with no rollback on disk, a file that gained a block is named by the rollback |
| HostsSystem.FailedReapplyLosesRecord | internal/hosts/hosts.go:184-190 | after an Apply whose file write fails and whose state is then removed, every Restore reports no state and changes nothing |
| HostsSystem.ApplyKeepsRecordExactly | internal/hosts/hosts.go:150-192 | any Apply, guarded or not and under any fault, keeps every gained block recorded if and only if it does not get to its rollback write, or all gained blocks are in its own file and its write does not fail with the state removed |
| HostsSystem.SecondPathLosesRecord | internal/hosts/hosts.go:150-192 | two Applies to different files, nothing failing, leave the first block without a record |
| HostsSystem.ReapplyLosesRecord | internal/hosts/hosts.go:150-192 | a two-call run that leaves a block with no record |
| HostsSystem.EntriesFromDomains | internal/hosts/hosts.go:84-115 | one entry per distinct normalised host, sorted, and the only sorted arrangement; or the first domain's error |
| HostsSystem.HostsAreNormalForms | internal/hosts/hosts.go:84-115 | the hosts are exactly the normal forms of the domains that are not blank; the error is that of the first domain with a star or without a normal form |
| SystemDns.CleanStrings | internal/systemdns/systemdns.go:265-284 | the loop with its seen map computes the specified first occurrences up to case |
| SystemDns.CleanedIsClean | internal/systemdns/systemdns.go:265-284 | the result is trimmed, non-blank, without repeats up to case, and drawn from the input |
| SystemDns.CleanedKeepsClean | internal/systemdns/systemdns.go:265-284 | a clean list is unchanged |
| SystemDns.CleanedIsFirst | internal/systemdns/systemdns.go:265-284 | later values never change what is there |
| SystemDns.CleanedCovers | internal/systemdns/systemdns.go:265-284 | every value that is not blank is there, up to case |
| SystemDns.SeparatorsMean | internal/systemdns/windows_platform.go:151-156 | each of the six separators ends a field, alone or in runs, and no other character does |
| SystemDns.ServerListRoundTrip | internal/systemdns/windows_platform.go:151-156 | a list joined with commas parses back if and only if it is clean and free of separators |
| SystemDns.ParsedIsClean | internal/systemdns/windows_platform.go:151-156 | a parsed registry value is clean and free of separators |
| SystemDns.InterfaceStateFromWindows | internal/systemdns/windows_platform.go:133-149 | the saved record of one snapshot row |
| SystemDns.SaveRestoreRoundTrip | internal/systemdns/windows_platform.go:133-210 | save then restore returns an adapter's setting if and only if it is DHCP, or a non-empty clean list that could be read |
| SystemDns.AdaptersNotRestored | internal/systemdns/windows_platform.go:133-210 | an adapter that cannot be read comes back on DHCP, and a repeated server is dropped |
| SystemDns.SelectOne | internal/systemdns/windows_platform.go:96-112 | one selector adds the matching rows with a new index, in order |
| SystemDns.SelectInterfaces | internal/systemdns/windows_platform.go:90-117 | the selection is the first row per index of all matches in selector order, or the first selector nothing matches |
| SystemDns.SelectorPicks | internal/systemdns/windows_platform.go:119-131 | a selector picks exactly the rows with that index, that alias in any letter case, or that GUID in any letter case with or without braces |
| SystemDns.IndexTexts | internal/systemdns/windows_platform.go:119-131 | different indexes have different texts |
| SystemDns.BracesPickNoGuid | internal/systemdns/windows_platform.go:119-131 | a row without a GUID is picked by a bare pair of braces |
| SystemDns.NoMatchIsMissed | internal/systemdns/windows_platform.go:90-117 | every row some selector picks is among the matches |
| SystemDns.SelectorsInTurn | internal/systemdns/windows_platform.go:90-117 | the selectors are taken in turn |
| SystemDns.SelectionIsFirst | internal/systemdns/windows_platform.go:90-117 | later rows never change the selection: the first row of an index is the one saved |
| SystemDns.FirstByIndexCovers | internal/systemdns/windows_platform.go:90-117 | indexes are distinct, every match is covered, every record was saved from a row |
| SystemDnsRun.SnapshotHolds | internal/systemdns/windows_platform.go:32-49 | a snapshot of untouched interfaces holds every selected original, if the selected adapters report what they hold |
| SystemDnsRun.StepKeepsSafe | internal/systemdns/systemdns.go:113-167 | each step of Apply, Restore, a crash or a user edit keeps write-ahead safety, and the rollback goes away only with every interface back |
| SystemDnsRun.RunIsSafe | internal/systemdns/systemdns.go:113-167 | in every run whose Applies begin with no rollback on disk and select adapters that report what they hold, an interface that differs from its original is held by the rollback; adapters never selected may be unreadable |
| SystemDnsRun.RestoreRecovers | internal/systemdns/systemdns.go:140-167 | from any such state, crashed anywhere, a completed Restore returns every interface and removes the file |
| SystemDnsRun.ApplyOverIsSafeExactly | internal/systemdns/systemdns.go:113-134 | an Apply over a rollback file is safe if and only if every interface still has the user's setting, that is, if and only if each interface of the file is as the file would set it |
| SystemDnsRun.AsSavedIsOriginal | internal/systemdns/systemdns.go:113-167 | in a safe state the rollback file tells whether the interfaces are still as the user left them |
| SystemDnsRun.SecondApplyLosesOriginal | internal/systemdns/systemdns.go:113-134 | a safe machine that a second Apply makes unsafe |
| SystemDnsRun.Host.ApplyWithPlatform | internal/systemdns/systemdns.go:113-134 | whatever fails or crashes, the host is where the recorded steps lead; refusal exactly for a bad configuration or unmatched selector; on success every selected interface has the servers; safety is kept when there was no rollback and the selected adapters report what they hold |
| SystemDnsRun.Host.SetInterfaces | internal/systemdns/windows_platform.go:51-61 | the per-interface loop, interruptible at every interface |
| SystemDnsRun.Host.RestoreWithPlatform | internal/systemdns/systemdns.go:140-167 | refusal exactly for a missing or foreign file; safety is kept; on success from a safe state every interface has its original and the file is gone |
| SystemDnsRun.InterfaceIndexes | internal/systemdns/windows_platform.go:165-173 | the positive indexes in order |
| SystemDnsRun.TargetOf | internal/systemdns/windows_platform.go:184-210 | the setting the restore script gives a saved interface |
| SystemProxy.RunIsSafe | internal/systemproxy/systemproxy.go:67-121 | in every run whose Applies begin with no rollback, settings that differ from the user's are saved on disk |
| SystemProxy.RestoreRecovers | internal/systemproxy/systemproxy.go:103-121 | from any such state a completed Restore puts the user's settings back, whatever the platform wrote on the way |
| SystemProxy.ApplyOverIsSafeExactly | internal/systemproxy/systemproxy.go:67-97 | an Apply over a rollback file is safe if and only if the settings are still the user's, that is, the ones in the file |
| SystemProxy.SecondApplyLosesOriginal | internal/systemproxy/systemproxy.go:67-97 | a safe machine that a second Apply makes unsafe |
| SystemProxy.Host.ApplyWithPlatform | internal/systemproxy/systemproxy.go:67-97 | the call is a run of the steps, guarded and safe when no rollback existed; refusal exactly for a bad configuration; nothing changes before the state is written, and then the rollback holds the settings there were |
| SystemProxy.Host.RestoreWithPlatform | internal/systemproxy/systemproxy.go:103-121 | the call is a guarded run; its outcome, the settings and the rollback exactly, from the state on disk and what fails |
| DnsIntercept.Lifetime | internal/dnsintercept/server.go:356-380 | a lower bound of CacheTTL and every record's TTL that is one of them |
| DnsIntercept.ResponseTtl | internal/dnsintercept/server.go:356-380 | the loop over the records computes that smallest lifetime |
| DnsIntercept.CapResponseTtl | internal/dnsintercept/server.go:382-388 | in place, every TTL above the remaining time is lowered to it and nothing else changes |
| DnsIntercept.ServedIsAged | internal/dnsintercept/server.go:319-323 | a hit before expiry is the stored message under the new ID, section by section the same records, each TTL exactly the smaller of its own and the whole seconds left |
| DnsIntercept.CacheKeyInjective | internal/dnsintercept/server.go:348-354 | two requests have one text key if and only if lower-cased name, type and class agree, even with a bar in the name |
| DnsIntercept.ServedTtlsEndInTime | internal/dnsintercept/server.go:302-388 | before expiry every served TTL ends by the store time plus the smallest original TTL and CacheTTL; with a record present, if and only if |
| DnsIntercept.LateReadLowersNothing | internal/dnsintercept/server.go:319-323 | a second clock reading k whole seconds late serves every TTL up to 2^32 - k as it was |
| DnsIntercept.ZeroTtlIsNeverStored | internal/dnsintercept/server.go:326-346 | a good answer with a zero-TTL record added leaves the cache unchanged |
| DnsIntercept.StoredExactly | internal/dnsintercept/server.go:326-346 | an answer is stored if and only if it succeeded, the request has one question, and every record has a positive TTL |
| DnsIntercept.StoredIsFound | internal/dnsintercept/server.go:302-346 | a stored answer is found for the same question until it expires and not after, and what other questions find is as before |
| DnsIntercept.LookupLosesNothing | internal/dnsintercept/server.go:302-318 | a lookup drops only what has expired |
| DnsIntercept.LocalResponse | internal/dnsintercept/server.go:254-294 | the local answer, and blocked exactly when nothing is mapped |
| DnsIntercept.Server.GetCache | internal/dnsintercept/server.go:302-324 | the entry served, with the request's ID and lowered TTLs, or the expired entry dropped |
| DnsIntercept.Server.PutCache | internal/dnsintercept/server.go:326-346 | the cache after a store, and when nothing is stored |
| DnsIntercept.Server.ForwardResponse | internal/dnsintercept/server.go:227-248 | cache first, then the forwarder: reply, cache, counters and whether it was called |
| DnsIntercept.Server.Handle | internal/dnsintercept/server.go:207-225 | the whole decision; the forwarder sees a target only when its type is passed on |
| DnsIntercept.HandlerMeans | internal/dnsintercept/server.go:207-300 | in the numbers of the protocol: which names are targets, which target queries are passed on, the mapped record or the empty reply that counts as blocked, SERVFAIL for a failed forward, and every counter |
| DnsRun.StepsRefineHandler | internal/dnsintercept/server.go:207-248 | the concurrent machine's steps for one undisturbed query come to what the handler does: same reply, cache, counters and forwarder call |
| DnsRun.StepIsAccounted | internal/dnsintercept/server.go:200-294 | every step of every interleaving keeps the counters equal to the sets of queries behind them |
| DnsRun.RunIsAccounted | internal/dnsintercept/server.go:200-294 | so does every run |
| DnsRun.Accounting | internal/dnsintercept/server.go:200-294 | at any moment local + hits + forwarded is at most the queries with a question, blocked at most target, errors at most forwarded plus failed writes, and only INET HTTPS or SVCB targets with blocking off were forwarded; once all queries are done the sum is exact and the forwarder was called forwarded times |
| DnsRun.RunAgrees | internal/dnsintercept/server.go:227-346 | in every run the entry under every cache key is the stored form of the last answer stored under it |
| DnsRun.RunIsSourced | internal/dnsintercept/server.go:227-346 | in every run each stored answer is what the forwarder returned, at a step of the run, to a waiting query with that request, stamped with that query's own store reading; and each hit is what a lookup step of its query found |
| DnsRun.CachedAnswersAgree | internal/dnsintercept/server.go:227-346 | in every run an answer served from cache is the last answer the forwarder had returned and the server had stored for the same question when the cache was looked up, unexpired at that reading, with this request's ID, and TTLs within the deadlines of its store reading if served before expiry |
| PageBody.Index | internal/pageenhance/pageenhance.go:536-546 | the first occurrence, or none anywhere |
| PageBody.InsertionIsExact | internal/pageenhance/pageenhance.go:536-546 | the insert stands right before the first case-folded marker with the rest of the body unchanged, or there is no marker |
| PageBody.ReplaceJoinsPieces | internal/pageenhance/pageenhance.go:517-532 | old and new body are the same pieces joined by the old and new text, at most count joints, no occurrence left in a replaced piece |
| PageBody.ReplaceAtFirst | internal/pageenhance/pageenhance.go:517-532 | the leftmost occurrence is replaced first, and the rest alike with one less to go |
| PageBody.ReplaceNone | internal/pageenhance/pageenhance.go:517-532 | without an occurrence nothing changes |
| PageEnhance.ReadBodyKeepsStream | internal/pageenhance/pageenhance.go:380-403 | a body that is not loaded stays readable as the same bytes, with at most MaxBodySize+1 buffered; a loaded one is the whole stream within the limit |
| PageEnhance.LargestLimitLosesBody | internal/pageenhance/pageenhance.go:387-402 | with the largest limit every stream is read as empty |
| PageEnhance.PassThroughIsAllOrNothing | internal/pageenhance/pageenhance.go:229-328 | under pass_through, a failure at any position leaves the original bytes, the original headers but Content-Length, no error, and exactly one error event, last, even when a transformer overwrote its buffer |
| PageEnhance.TransformsFold | internal/pageenhance/pageenhance.go:271-300 | configured transforms succeed exactly when the fold of edits does; then body and headers are that fold, and the body counts as modified exactly when some edit applied |
| PageEnhance.TransformMeans | internal/pageenhance/pageenhance.go:495-546 | injectHead goes before the first </head> in any letter case, injectBody before the first </body> of that, then each replacement on what the one before left; what counts as applied or skipped; failure exactly for an empty search text |
| PageEnhance.FoldFromFront | internal/pageenhance/pageenhance.go:271-300 | the first transform works first, the rest on what it left |
| PageEnhance.HeadersMean | internal/pageenhance/pageenhance.go:480-493 | a header a transform sets has its last value, one it only removes is gone, all others are as they were, and when that counts as applied |
| PageEnhance.CanonFoldsCase | internal/pageenhance/pageenhance.go:480-493 | two proper header names are one header if and only if they differ in letter case at most |
| PageEnhance.TransformNotes | internal/pageenhance/pageenhance.go:271-300 | the apply and skip events one transform adds |
| PageEnhance.CustomMeans | internal/pageenhance/pageenhance.go:301-336 | one custom transformer: the body it returns or its buffer as it left it, its headers with Content-Length and validators set right, and its events |
| PageEnhance.CustomsInOrder | internal/pageenhance/pageenhance.go:301-328 | custom transformers work in order, and none after a failure |
| PageEnhance.TransformSkips | internal/pageenhance/pageenhance.go:253-258 | when the body is withheld the transforms are gone through in order |
| PageEnhance.OneTransformSkip | internal/pageenhance/pageenhance.go:253-258 | one that works on the body is skipped with its label and the reason, any other passed over |
| PageEnhance.CustomSkips | internal/pageenhance/pageenhance.go:259-264 | then the custom transformers in order |
| PageEnhance.OneCustomSkip | internal/pageenhance/pageenhance.go:259-264 | one that needs the body is skipped with its name and the reason, any other passed over |
| PageEnhance.WithheldReasons | internal/pageenhance/pageenhance.go:380-400 | why a body is withheld |
| PageEnhance.PassThroughOfStreams | internal/pageenhance/pageenhance.go:229-328 | the all-or-nothing law for every stream readable whole within the limit |
| PageEnhance.SuccessIsFold | internal/pageenhance/pageenhance.go:218-337 | the final body is the left fold of the transforms; the headers are exactly the header fold with Content-Length set to its length, without ETag and Content-MD5 exactly when some edit applied, as it did if the body changed |
| PageEnhance.UnloadedKeepsStream | internal/pageenhance/pageenhance.go:218-337 | a body that is not loaded stays readable as it was if and only if its read did not fail after giving bytes within the limit |
| PageEnhance.StreamLaw | internal/pageenhance/pageenhance.go:218-410 | for every stream, size and read failure: unread or over the limit, unchanged; within it, the fold or, under pass_through, the original; a failing read, nothing readable and one error event |
| PageEnhance.FailedReadLosesBody | internal/pageenhance/pageenhance.go:236-248 | a byte followed by a read error: pass_through returns no error and the byte is gone |
| PagePipeline.Message.SetResponseBody | internal/pageenhance/pageenhance.go:548-552 | body, length and header after a body is set |
| Text.DecimalMeans | internal/pageenhance/pageenhance.go:548-552 | a length is written in decimal, most significant digit first |
| PagePipeline.Message.ApplyTransformHeaders | internal/pageenhance/pageenhance.go:480-493 | the header edits and whether any was made |
| PagePipeline.ApplyBodyTransform | internal/pageenhance/pageenhance.go:495-534 | the edit loop computes the specified edit, failing where it fails |
| PagePipeline.Pipeline.Note | internal/pageenhance/pageenhance.go:218-337 | one event and its counter together |
| PagePipeline.Pipeline.ReadInto | internal/pageenhance/pageenhance.go:380-403 | the bounded read leaves the response as specified |
| PagePipeline.Pipeline.NoteSkips | internal/pageenhance/pageenhance.go:249-264 | one skip event per transform and transformer |
| PagePipeline.Pipeline.RunTransform | internal/pageenhance/pageenhance.go:271-300 | one configured transform on the response |
| PagePipeline.Pipeline.RunConfigured | internal/pageenhance/pageenhance.go:271-300 | the loop over configured transforms |
| PagePipeline.Pipeline.RunCustom | internal/pageenhance/pageenhance.go:301-328 | one custom transformer, which may overwrite the buffer it is given |
| PagePipeline.Pipeline.RunCustomTransformers | internal/pageenhance/pageenhance.go:301-328 | the loop over custom transformers |
| PagePipeline.Pipeline.ApplyResponse | internal/pageenhance/pageenhance.go:218-337 | the mutating pipeline gives the specified response, events and error, and the counters grow by the number of events of each kind |
| PipeFrames.Be32RoundTrip | internal/privilege/privilege_windows.go:542-574 | the four length bytes decode to the length |
| PipeFrames.Be32IsBigEndian | internal/privilege/privilege_windows.go:561-574 | the most significant length byte comes first |
| PipeFrames.DecodeEncode | internal/privilege/privilege_windows.go:542-574 | a frame decodes to its body and the bytes after it, or is too large for the reader |
| PipeFrames.DecodeRefuses | internal/privilege/privilege_windows.go:542-559 | a zero length, a length over the limit and a frame not there in full are refused, each with its error |
| PipeFrames.PrefixReadsPrefix | internal/privilege/privilege_windows.go:542-602 | of a stream cut anywhere exactly the complete frames read back, in order |
| PipeFrames.Pipe.ReadFile | internal/privilege/privilege_windows.go:576-588 | a read moves any part of the wire into the buffer and nothing else |
| PipeFrames.Pipe.WriteFile | internal/privilege/privilege_windows.go:590-602 | a write moves any part of the data onto the wire |
| PipeFrames.ReadPipeFull | internal/privilege/privilege_windows.go:576-588 | success means the buffer is exactly the next bytes; on a pipe that moves at least one byte a call it succeeds |
| PipeFrames.WritePipeFull | internal/privilege/privilege_windows.go:590-602 | the wire grows by a prefix of the data, all of it on success |
| PipeFrames.ReadPipeFrame | internal/privilege/privilege_windows.go:542-559 | success is the frame the wire holds; on a reliable pipe the exact result, errors included |
| PipeFrames.WritePipeFrame | internal/privilege/privilege_windows.go:561-574 | the two size errors exactly, nothing written for them, otherwise a prefix of the frame and all of it on success |
| PipeFrames.Exchange | internal/privilege/privilege_windows.go:542-602 | any sequence of bodies written and read back under any chunking is the same sequence with nothing left over |
| Socks5.AuthRoundTrip | internal/upstream/upstream.go:500-519 | a decoder from section 2 of RFC 1929 recovers user and password and the bytes after them |
| Socks5.ConnectRoundTrip | internal/upstream/upstream.go:521-549 | a decoder from sections 4 and 5 of RFC 1928 recovers address and port, for all three address types |
| Socks5.ConnectRefuses | internal/upstream/upstream.go:521-549 | a request can be made of exactly the targets that split, with a port from 1 to 65535 and a name of at most 255 bytes; the error otherwise |
| Socks5.ServerRecoversClient | internal/upstream/upstream.go:460-549 | a decoder of the whole client stream recovers methods, credentials, address, port and the first tunnel bytes |
| Socks5.AcceptingUnique | internal/upstream/upstream.go:460-587 | a server stream is an accepting session up to at most one place, with one chosen method |
| Socks5.Conn.ReadReply | internal/upstream/upstream.go:551-587 | success exactly when the input starts with an accepting reply, and then exactly that reply is consumed |
| Socks5.AcceptsSuccessReplies | internal/upstream/upstream.go:551-587 | every success reply of section 6 of RFC 1928, with any bound address, is taken |
| Socks5.AcceptedIsSuccessReply | internal/upstream/upstream.go:551-587 | and nothing else is |
| Socks5.Conn.Authenticate | internal/upstream/upstream.go:500-519 | what is sent and consumed, and when it succeeds |
| Socks5.Conn.Negotiate | internal/upstream/upstream.go:460-488 | the chosen method is the server's, and exactly its bytes are consumed |
| Socks5.Conn.Handshake | internal/upstream/upstream.go:460-498 | success against exactly the accepting streams; the client has sent the specified bytes and the next byte read is the first tunnel byte |
| Socks5.OfferedExactly | internal/upstream/upstream.go:460-488 | the methods the client goes on with were offered if and only if no authentication, or credentials are set |
| Socks5.AcceptsUnoffered | internal/upstream/upstream.go:460-498 | against a server picking an unoffered user/password method the handshake succeeds, with empty credentials sent |
| Upstream.MatchProfile | internal/upstream/profile.go:103-126 | the first profile that matches exactly or by wildcard, or that none does |
| Upstream.CompileProfiles | internal/upstream/profile.go:32-93 | every profile compiled in order, or the first one with a problem, its place and the problem |
| Upstream.CompiledMeans | internal/upstream/profile.go:32-126 | a compiled profile has a domain, matches exactly the hosts its configured domains cover, and has the configured addresses and the normal forms of the forward host and the server name, at least one thing set |
| Upstream.Builder.AddCandidate | internal/upstream/upstream.go:286-306 | one more wanted candidate; the list is the first of each key among the wanted |
| Upstream.Candidates | internal/upstream/upstream.go:264-331 | without a profile, the resolved addresses in order or the resolver error; with one, the order-preserving de-duplication of profile, forward-host and original-host addresses, with one attempt per failed lookup |
| Upstream.WantedMeans | internal/upstream/upstream.go:286-328 | the candidates asked for, in order and field by field: the profile's own addresses, the forward host's, the host's; which go by the profile's server name and which by the host |
| Upstream.LookupFailuresMean | internal/upstream/upstream.go:307-328 | one resolve attempt per lookup made and failed, the forward host's first |
| Upstream.KeyTextExact | internal/upstream/upstream.go:290-298 | the text keys of two candidates of one call agree if and only if their addresses, targets and server names do, for any host and port |
| Upstream.CandidatesAreFirsts | internal/upstream/upstream.go:264-331 | de-duplicating by text is de-duplicating by address, target and server name, for every profile, host, port and lookup |
| Upstream.FirstsCover | internal/upstream/upstream.go:264-331 | no key repeats and every wanted key is there |
| Upstream.FirstsAreInPlace | internal/upstream/upstream.go:264-331 | the list is the subsequence at the first place of each key |
| Upstream.DialTls | internal/upstream/upstream.go:213-254 | the first candidate passing TCP and TLS, or one failure per candidate in order; no connection stays open but the returned one |
| Upstream.Failures | internal/upstream/upstream.go:213-254 | one failure per candidate with its address and target, at the TLS stage exactly where TCP succeeded |
| Upstream.Dial | internal/upstream/upstream.go:187-211 | the same for the plain loop |
| Upstream.ListCandidates | internal/upstream/upstream.go:264-331 | the profile is the first that matches the host, and the list is its candidates de-duplicated by fields |
| Upstream.DialTlsContext | internal/upstream/upstream.go:213-254 | end to end: for the first matching profile and its de-duplicated list, the first candidate passing TCP and TLS, or the failed lookups and one failure per candidate; nothing else stays open |
| Upstream.DialContext | internal/upstream/upstream.go:187-211 | the same end to end without the handshake |
| Lifecycle.Engine.Start | internal/engine/engine.go:129-321 | success exactly when not running and none of the calls named for the mode fails; then exactly the log named for the mode; on error the engine is unchanged, no server of this Start is up and nothing was left taken; DNS settings are touched only with the DNS server up and a failed attempt is followed by a restore before it goes down |
| Lifecycle.Engine.Prepare | internal/engine/engine.go:137-162 | the four builds before any server |
| Lifecycle.Engine.StartHosts | internal/engine/engine.go:172-207 | hosts mode: success exactly when entries, reverse server and preparation succeed; the reverse server is stopped when preparing fails |
| Lifecycle.Engine.PrepareHosts | internal/engine/engine.go:467-491 | success exactly when the preferred helper works, or the direct way does, or the helper after a direct failure to retry; a failed retry reports the direct error |
| Lifecycle.DirectFailure | internal/engine/engine.go:493-517 | none if and only if every call of the direct way succeeds and the certificate is there or may be installed; otherwise one that fails |
| Lifecycle.PreparationMeans | internal/engine/engine.go:467-517 | when hosts mode can prepare, call by call |
| Lifecycle.Engine.StartDnsMode | internal/engine/engine.go:208-263 | DNS mode: every failing step stops what was up |
| Lifecycle.Engine.TakeDns | internal/engine/engine.go:251-263 | the exact order of a failed take-over |
| Lifecycle.Engine.StartProxyMode | internal/engine/engine.go:264-291 | proxy, PAC and system modes |
| Lifecycle.Engine.TakeProxy | internal/engine/engine.go:283-291 | a failed take-over stops both servers and attempts no restore |
| Lifecycle.Engine.Stop | internal/engine/engine.go:323-392 | the tests on the mode and the captured servers carry out the mode's whole plan whatever fails, the first failure is returned, and a stopped engine does nothing |
| Lifecycle.Engine.RestoreSystem | internal/engine/engine.go:348-365 | the mode's restore and no other |
| Lifecycle.Engine.StopServers | internal/engine/engine.go:366-385 | each captured server is stopped, in order, and the first error kept |
| Lifecycle.FirstBadIsFirst | internal/engine/engine.go:344-385 | the returned failure is the earliest that counts, a missing state not counting |
| Lifecycle.PlanStopsAll | internal/engine/engine.go:344-385 | the plan stops each of the mode's servers once, with the restore first |
| Lifecycle.PlanUndoesStart | internal/engine/engine.go:129-392 | for every mode Stop attempts one restore of exactly what Start took, before it stops anything, and stops exactly the servers Start brought up, each once |
| Lifecycle.StartThenStop | internal/engine/engine.go:129-392 | the same of a Start that succeeds and the Stop after it on one engine, whatever fails in the Stop |
| ConcurrentStop.StepKeepsOwnership | internal/engine/engine.go:323-392 | each step of any Stop call keeps one owner, and ownership never changes hands |
| ConcurrentStop.RunKeepsOwnership | internal/engine/engine.go:323-392 | so does every interleaving |
| ConcurrentStop.ConcurrentStops | internal/engine/engine.go:323-392 | for any number of concurrent Stops, one call captures the servers, every action on them happens at most once, and when all have returned exactly what Start did is undone, each thing once; the owner returns the first error and the others none |
| ConcurrentStop.StagesArePlan | internal/engine/engine.go:344-385 | a teardown that captured the mode's servers comes to the mode's plan |
| ConcurrentStop.FirstFailedIsFirst | internal/engine/engine.go:344-385 | the owner's error is the earliest that counts |
| Rules.Matcher.AddGroup | internal/rules/rules.go:148-164 | the table after a group, or the first bad rule's error |
| Rules.NewMatcher | internal/rules/rules.go:75-90 | the table of all groups with the custom one last |
| Rules.TableMeans | internal/rules/rules.go:75-90 | on the configured text: the table accepts exactly the hosts that are the normal form of some domain or lie below one with `*.`; a named host has the group and rule text of the last domain naming it, and otherwise the first matching wildcard is the first configured one |
| Rules.GroupsCompile | internal/rules/rules.go:75-90 | a configuration compiles if and only if every group has a name and every domain is not blank, has a star only in front, and has a normal form |
| Rules.Matcher.MatchHost | internal/rules/rules.go:92-106 | the exact rule if there is one, else the first wildcard that covers the host, else none |
| Rules.Matcher.ExportRules | internal/rules/rules.go:112-146 | a sorted arrangement of exactly the compiled rules |
| Rules.ExportIsCanonical | internal/rules/rules.go:112-164 | any two exports of one table are equal, whatever the map order, and no exact host repeats |
| Rules.ExportOrder | internal/rules/rules.go:136-146 | rules come in the order of host, then group, then rule text |
| Rules.ExportAgrees | internal/rules/rules.go:92-134 | map-plus-list matching is linear matching over the export |
| Rules.HostMatches | internal/pac/pac.go:119-135 | the scan accepts exactly the hosts a rule covers |
| Rules.Generate | internal/pac/pac.go:64-115 | the script's tables hold exactly the non-empty exported hosts |
| Rules.MatchersAgreeExactly | internal/pac/pac.go:64-135 | on a normalised host the PAC function and the matcher agree if and only if a host that is an object member or a dotted wildcard is also covered by a rule |
| Rules.SpellingsAgree | internal/pac/pac.go:64-115 | letter case and a final dot make no difference to the PAC function |
| Rules.ConstructorIsProxied | internal/pac/pac.go:64-115 | with no rule the PAC function proxies the host constructor and the matcher does not match it |
| Rules.BareDotIsNotProxied | internal/pac/pac.go:64-115 | a wildcard pattern behind a bare dot matches and is not proxied |
| Rules.MatchersAgree | internal/pac/pac.go:64-135 | for a lower-case host of two or more non-empty labels the three matchers agree |
| Resolver.Sift | internal/resolver/resolver.go:293-302 | one insertion of the stable sort, in place |
| Resolver.StableSort | internal/resolver/resolver.go:293-302 | in place, the stable partition with the preferred family first |
| Resolver.ApplyPolicy | internal/resolver/resolver.go:275-304 | filter, de-duplicate and the two sorts compute the specified policy |
| Resolver.PolicyIsExact | internal/resolver/resolver.go:275-304 | every admitted address is there exactly once and nothing else |
| Resolver.CanonicalMeans | internal/resolver/resolver.go:285-289 | two addresses are one if and only if they are equal or the two forms of one IPv4 address |
| Resolver.PolicyAdmits | internal/resolver/resolver.go:278-284 | with IPv6 off only IPv4 addresses are left, otherwise every address there is |
| Resolver.FirstsAreFirst | internal/resolver/resolver.go:278-291 | later addresses never change what is there |
| Resolver.PolicyOrder | internal/resolver/resolver.go:293-303 | the preferred family stands first, and within a family the addresses stand as they came |
| Resolver.KeepMeans | internal/resolver/resolver.go:293-302 | the addresses of one family, in the order of the list |
| Resolver.PartitionExact | internal/resolver/resolver.go:293-302 | partitioning keeps the addresses, each once |
| Resolver.SecondPreferenceWins | internal/resolver/resolver.go:293-302 | with both preferences set only the later sort shows |
| Resolver.ParseResponse | internal/resolver/resolver.go:313-345 | the addresses and smallest TTL of the matching records, or failure |
| Resolver.RelevantMeans | internal/resolver/resolver.go:313-345 | the records of the kind asked for, in order |
| Resolver.ParsesMeans | internal/resolver/resolver.go:313-345 | a response parses if and only if it is there, succeeded and holds a record of the kind |
| Resolver.QueryServers | internal/resolver/resolver.go:141-182 | the first server whose answer parses |
| Resolver.FoldTtlIsSmallest | internal/resolver/resolver.go:367-373 | with positive TTLs the fold is the smallest |
| Resolver.ResolveByQueries | internal/resolver/resolver.go:184-211 | the addresses of both queries, failing only without any, and the clamped lifetime |
| Resolver.LifetimeIsSmallest | internal/resolver/resolver.go:78-114 | the lifetime is min(CacheTTL, smallest TTL of the successful queries) if and only if that TTL is positive; it is always positive and at most CacheTTL |
| Resolver.ZeroTtlIsKept | internal/resolver/resolver.go:354-373 | a single zero-TTL record is kept for the whole CacheTTL |
| Resolver.ClampMeans | internal/resolver/resolver.go:106-111 | a lifetime within bounds is kept; one that is absent or too long becomes CacheTTL |
| Resolver.Clone | internal/resolver/resolver.go:375-381 | equal bytes in new, distinct arrays |
| Resolver.Client.GetCache | internal/resolver/resolver.go:252-264 | a live entry as fresh copies, or the entry dropped |
| Resolver.Client.PutCache | internal/resolver/resolver.go:266-273 | the entry is kept in arrays of the client's own |
| Resolver.Client.Resolve | internal/resolver/resolver.go:78-114 | a cached answer is the policy of the lookup that stored it; otherwise the policy of this lookup, stored; the caller's arrays are never the cache's |
| Resolver.Client.ResolveFromServers | internal/resolver/resolver.go:78-211 | from the servers' responses to the cache: the policy of the first parsing answers' addresses, expiring at the store reading plus min(CacheTTL, smallest TTL of exactly those records) if and only if that TTL is positive |
| Resolver.OverwritingIsHarmless | internal/resolver/resolver.go:252-273 | a caller that overwrites every byte it got receives the same answer again |
| Resolver.ExpiredIsAskedAgain | internal/resolver/resolver.go:78-114 | up to its expiry the first lookup answers, after it the second |

## Left out

- Texts are sequences of code points with Unicode's white space; lower-casing and case folding are ASCII only (DNS names, header names, adapter names, body markers), so folding that moves byte positions is not modelled.
- `NormalizeHost` (IDNA, URL and IP parsing) is a parameter; all that is assumed of it, in `Upstream`, is that its result has no NUL, which the IDNA lookup profile refuses, as is assumed of a printed IP address.
- Rollback files hold their value: JSON, torn writes and unparsable files are not modelled, and there is one rollback path.
- The DNS snapshot call never fails in the model; a failing one changes nothing.
- Windows, PowerShell, registry and macOS calls are steps that may fail; the text of the generated scripts is not modelled.
- ConfigFromApp, Preflight, YAML loading, validation, provider tables, the command line and the control server: easy branching.
- SystemProxy.Host.ApplyWithPlatform: whether a text is an http URL or a host and port is given by functions.
- HostsSystem.EntriesFromDomains: EntriesFromRules, which only picks the exact rules, is not modelled.
- The raw DNS forwarder, its DoH transport and the listening sockets; the forwarder's answer is a parameter or a step.
- Which configured transforms match a request (host, path, status and type lists) is given, HeaderSet's map is given as a sequence in some order, and ServeAsset is not modelled.
- The HTTP CONNECT dialer, proxy address parsing, deadlines, TLS and certificates, startup probes.
- Socks5.Conn.Handshake: the server's bytes are a fixed stream; a failed write stops the stream of writes.
- Upstream.DialTls: whether a candidate accepts TCP and TLS is given by functions of its position.
- Resolver: IP literals, the system resolver and the wire format; `net.IP.String()` is modelled as the canonical bytes, and each query's responses are given.
- Lifecycle.Engine.PrepareHosts: which error texts are retried with the helper is given by a function of the failing call, and what the helper does is one call.
- Concurrent Starts, the stop that a cancelled context triggers, and Status.
- Pipe creation, client checks and the service around the pipe.
