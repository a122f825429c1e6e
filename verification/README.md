# Verification model of the Mastodon/Proxmox administration tool

Dafny models of the parts of the repository that keep state or rewrite configuration, with proofs of what
each of them keeps. `dafny verify dfyconfig.toml` checks everything.

| module | what it models |
|---|---|
| `Text` | the string operations of the source language that the other modules use |
| `MastodonGuest`, `MastodonUpgrade`, `MastodonSteps`, `MastodonEnv`, `MastodonTexts`, `MastodonRun` | the Mastodon upgrade as a protocol over a remote guest: its two undo flags, the verified rewrite of `.env.production`, the stash and its conflict resolution, `_abort` and the reconnect path |
| `JitsiPatch`, `JitsiProsody`, `JitsiProsodyLoop`, `JitsiProsodySwitch`, `JitsiProsodyRounds`, `JitsiProsodyTwice`, `JitsiBraces`, `JitsiJvb`, `JitsiKeys`, `JitsiHarvester`, `JitsiTexts` | the patchers of Prosody, Jicofo, `jvb.conf`, `turnserver.conf` and `sip-communicator.properties` |
| `RateLimiter`, `AdhocCredentials`, `MetricPruning` | the three in-memory stores whose entries expire, each against the full history of its calls |
| `RequestAuth`, `CredentialEpoch` | who a browser request runs as, over every run of logins, revocations and setting changes; the stamp that stands for "minted before the last password change" |
| `LineLog`, `HarmonyDoctor`, `HarmonyReport`, `HarmonyUpgrade`, `VersionOrder` | the Harmony upgrade: its streamed log, its health checks, its verification loop and its version guards |
| `PrometheusJobs`, `PrometheusTexts` | the scrape jobs of the one generated prometheus.yml |
| `UpgradeLock` | the per-application upgrade lock between any number of threads |
| `Quoting` | the TOML and YAML quoting of generated values, against how those languages read them |

How the environment is modelled:

- A remote command is a step whose answer is arbitrary within the stated effect on the guest (`MastodonGuest.Effect`).
  An SSH exception means that the command had no effect. Progress messages and the log callback do nothing else.
- `.env.production` is not tracked by git, so only the `sed` commands change it. The run's own state (`env_swapped`,
  `stash_pending`) lives in local variables in the source and is passed from piece to piece here, in one value `Run`.
- Clocks are arguments. `time.time()` may go back: what the rate limiter promises about lockouts holds while it
  does not, and the history records that. `time.monotonic()` never goes back, which its callers assume.
- Calls that the source runs under a lock, and whole browser requests, are single steps. Only `UpgradeLock` is
  about interleavings. Some of these calls read the clock before they take the lock (auth/jwt_auth.py:53,
  core/adhoc_credentials.py:43 and :65): that another thread gets in between and the two come out of the order of
  their times is not modelled.
- Random tokens and session ids are arguments that were not drawn before.
- Text is a sequence of Unicode characters, as in the source; files are read and written whole.

Where code and documentation differ, the code is modelled:

- core/adhoc_credentials.py:23-24 calls 256 a hard cap; pruning runs before the insertion, so 257 entries can be
  stored (`AdhocCredentials.OverTheCap` stores them).
- apps/utils.py:104 calls a double release a no-op; it is one exactly if nobody has locked the lock since
  (`UpgradeLock.ReleaseIsNoOp`), and otherwise frees another client's lock (`UpgradeLock.StrayRun`).
- apps/jitsi.py:1388-1390 reports that TCP is enabled also when the new block was not inserted (`JitsiJvb.TcpAfterwards`, `JitsiJvb.OnlyIce`).
- clients/prometheus_exporter.py:500-503 promises that absent devices stop being exported; not those of a call that an
  exception cut short (`MetricPruning.Site.Update` says exactly which).

## Model

| member | source | states |
|---|---|---|
| `MastodonRun.RunUpgrade` | apps/mastodon.py:1285-1538 | Over every sequence of answers and exceptions: each restart of the services happens with every database line on PGBouncer, each migration with every one on the direct database; after the first failure only undo commands follow; the other lines of the file and the older stash entries are untouched; the local changes are in the tree or on the stash unless a resolution dropped the entry after missing a file; a run returns True if and only if the databases are well-formed, the file has a line of each kind, no unmerged file was listed and nothing stopped it, and has then issued exactly its plan and ends on PGBouncer; a file with both lines ends as it was or on PGBouncer if and only if the last values that substitutions wrote are all its own or all PGBouncer's, and so it does if no swap command failed |
| `MastodonRun.PlanMeans` | apps/mastodon.py:1314-1507 | The commands of a successful run, written out in order |
| `MastodonEnv.RestoredExactly` | apps/mastodon.py:635-643 | After any sequence of substitutions, with any of them failed, only the last value written of each kind counts; hence the exact condition above |
| `MastodonEnv.MixedFile` | apps/mastodon.py:635-643 | A sequence of answers after which the file has the direct host with PGBouncer's port and nothing is left to undo |
| `MastodonEnv.LastOnesCount` | apps/mastodon.py:635-643 | The file after a trace is the original with the last successful host and port written over it |
| `MastodonRun.SwapEnvDb` | apps/mastodon.py:628-667 | True only if every database line then names the target and both were read back; if the commands worked and the values are well formed, true exactly if the file had a line of each kind |
| `MastodonRun.SubstituteDb` | apps/mastodon.py:635-643 | True exactly if both substitutions worked; then every database line has the new value and the other lines are as before; otherwise the file has changed if and only if the first one worked and some host line had another value |
| `MastodonRun.RestoreEnv` | apps/mastodon.py:1289-1300 | Clears the swap flag exactly with a verified return to PGBouncer; succeeds whenever the commands do |
| `MastodonRun.PopOwed` | apps/mastodon.py:470-480 | A pop that fails or raises leaves the run's entry on top of the stash; one that succeeds leaves the stash as it was found |
| `MastodonRun.Abort` | apps/mastodon.py:1302-1311 | Returns failure or raises, never success; keeps the invariant whatever the pop and the swap back answer; if they work, both flags are cleared and the file is back |
| `MastodonRun.ResolveOne` | apps/mastodon.py:505-508 | One conflicted file gets its local version back, or the miss is on record |
| `MastodonRun.CheckOutAll` | apps/mastodon.py:500-508 | The loop handles every listed file once, in order |
| `MastodonRun.ResolveStashConflicts` | apps/mastodon.py:483-511 | Unless an exception breaks it off, it answers true if and only if the listing worked and some unmerged file has a visible name; once it does, the local changes are kept if and only if the entry is still on the stash or every conflicted file was checked out |
| `MastodonRun.Prepare` | apps/mastodon.py:1313-1356 | Succeeds, when nothing stops it, if and only if no unmerged file is listed; then the tree is clean, the run's changes are stashed if there were any, and the file is on the direct database |
| `MastodonRun.PullAndPop` | apps/mastodon.py:1359-1384 | After success the stash is as found, or a pop failed; the file is still on the direct database |
| `MastodonRun.PopPulled` | apps/mastodon.py:1369-1384 | The owed pop after the pull ends with the entry popped, resolved and dropped, or still on the stash, and never with a failure of the run |
| `MastodonRun.Gate` | apps/mastodon.py:1391-1393 | A gating command that fails ends in a complete undo; otherwise nothing but the trace changes |
| `MastodonRun.Build` | apps/mastodon.py:1386-1436 | The five gating steps run in order, all on the direct database |
| `MastodonRun.RestoreOrAbort` | apps/mastodon.py:1438-1445 | No restart follows unless the file was verified to be on PGBouncer |
| `MastodonRun.Middle` | apps/mastodon.py:1438-1468 | The intermediate restart sees PGBouncer, and the file is back on the direct database before the second migration |
| `MastodonRun.Finish` | apps/mastodon.py:1470-1507 | The second migration sees the direct database, the final restart PGBouncer |
| `MastodonRun.Sequence` | apps/mastodon.py:1314-1507 | The whole connected part: failure is undone, success has issued the plan without a stop |
| `MastodonRun.Reconnect` | apps/mastodon.py:1509-1518 | After an exception the undo is tried over a new connection; if that works, both flags end cleared |
| `MastodonSteps.SwapOutcome` | apps/mastodon.py:640-667 | The read-back accepts exactly the files that had a line of each kind, and such a file is then wholly on the new database |
| `MastodonSteps.SwapRefused` | apps/mastodon.py:645-667 | A swap whose read-back refuses has left the file as it was exactly if no line needed rewriting |
| `MastodonTexts.HostCharacters` | apps/utils.py:11-11 | Which characters a database host may have |
| `MastodonTexts.HostIsPlain` | apps/utils.py:190-195 | An accepted host has nothing in it that means something to the shell or to `sed` |
| `MastodonTexts.PortMeans` | apps/mastodon.py:632-633 | A port is digits, and perhaps one line break at the end |
| `MastodonTexts.NamesTrimmed` | apps/mastodon.py:499-501 | A listed name loses the line breaks at its ends and nothing else |
| `MastodonTexts.VisibleMeans` | apps/mastodon.py:497-498 | Which listings count as empty |
| `MastodonTexts.MishapMeans` | apps/mastodon.py:499-510 | What has to have happened before local changes can be lost |
| `JitsiProsodyRounds.DisableUndoesEnable` | apps/jitsi.py:1747-1831 | For every file, disabling gives back the file that was enabled, character by character, if and only if it had neither setting, or the anonymous one before any hashed one, a plain line after every auto-configured guest comment, and a `Component` line or exactly one line break at the end (or, where it named the guest host already, no hashed setting and no line that the loop drops) |
| `JitsiProsodyRounds.HashedBeforeAnonymous` | apps/jitsi.py:1753-1800 | A file with the hashed setting first, which does not come back |
| `JitsiProsodySwitch.BackExactly` | apps/jitsi.py:1753-1800 | The second replacement undoes the first if and only if no hashed setting comes before the first anonymous one |
| `JitsiProsodyRounds.EnableByLine` | apps/jitsi.py:1753-1784 | The enabled file is the old one with the first anonymous setting switched and the guest block before the first `Component` line after line 0 |
| `JitsiProsodyRounds.EnabledAtEnd` | apps/jitsi.py:1773-1783 | Without such a line the block goes to the end of the stripped file |
| `JitsiProsody.EnableTwice` | apps/jitsi.py:1747-1786 | For every file: what enabling writes has the hashed setting and the guest host, and a second run skips it |
| `JitsiProsodyLoop.KeptExactly` | apps/jitsi.py:1805-1830 | A line is left by the removal loop if and only if it is plain and outside every guest block or at the end of one, or is a guest comment that a plain line outside every block follows; said without the loop's flag and pending comment |
| `JitsiProsodyTwice.DisableRemovesGuest` | apps/jitsi.py:1788-1831 | For every file: the guest host is still named after disabling if and only if the loop put back a guest comment that names it |
| `JitsiProsodyTwice.DisableAgain` | apps/jitsi.py:1788-1800 | Disabling a file without the guest host changes nothing if and only if it has an anonymous setting or no hashed one |
| `JitsiProsodyTwice.DisableTwice` | apps/jitsi.py:1788-1831 | For every file, by what is in it before: disabling twice is disabling once if and only if it does not name the guest host, or a line that stays has the anonymous setting, or the first hashed one is in a line that stays, or no such line has a hashed one (and, where a guest comment naming the host is put back, if no line that stays has a hashed setting after the first is turned back) |
| `JitsiProsodyTwice.TwiceDiffers` | apps/jitsi.py:1788-1831 | The file whose guest block has the first hashed setting and a later host another: the second run changes it again |
| `JitsiProsody.PatchProsody` | apps/jitsi.py:1747-1831 | The patch is the two functions that the lemmas above are about |
| `JitsiProsody.RemoveGuestHost` | apps/jitsi.py:1805-1830 | The removal loop with its skip flag and pending comment keeps what the specification keeps |
| `JitsiBraces.RemoveBlocks` | apps/jitsi.py:1926-1940 | The loop of both brace patchers keeps what the specification keeps, and reports whether a block was seen |
| `JitsiBraces.ExciseIsOutside` | apps/jitsi.py:1926-1941 | When each head line opens one level, the depth counter removes exactly the lines up to the matching brace |
| `JitsiBraces.RemovalKeepsBalance` | apps/jitsi.py:1926-1941 | On a balanced file whose head lines each open one level, the rest is the lines outside the blocks, in order, and is balanced if and only if no line of a block closes more than the block has open |
| `JitsiBraces.OneBraceRemoval` | apps/jitsi.py:1926-1941 | So it is whenever no line has more than one brace |
| `JitsiBraces.OneLineBlockUnbalances` | apps/jitsi.py:1328-1344 | With a block on one line the counter takes the brace of the enclosing block with it |
| `JitsiBraces.SuchAFile` | apps/jitsi.py:1328-1344 | A file on which that happens |
| `JitsiBraces.PatchJicofo` | apps/jitsi.py:1890-1942 | The patch is the two functions that the lemmas below are about |
| `JitsiBraces.FindLastBrace` | apps/jitsi.py:1906-1910 | The loop finds the last line with a closing brace |
| `JitsiBraces.LastBrace` | apps/jitsi.py:1906-1910 | The last line with a closing brace, if there is one |
| `JitsiBraces.EnabledLines` | apps/jitsi.py:1895-1918 | The enabled file is the old one, line by line, with the block before the last line that has a closing brace |
| `JitsiBraces.DisableUndoesEnable` | apps/jitsi.py:1895-1942 | Disabling gives back the file that was enabled if and only if no line of it began with the block's head |
| `JitsiBraces.RoundTrip` | apps/jitsi.py:1890-1942 | So it does for every file with a closing brace and without that text |
| `JitsiBraces.JicofoTwice` | apps/jitsi.py:1890-1942 | Both directions are idempotent, for every file |
| `JitsiJvb.PatchJvb` | apps/jitsi.py:1320-1386 | The patch is the function that the lemmas below are about |
| `JitsiJvb.KeepsBalance` | apps/jitsi.py:1325-1386 | A balanced file whose `ice` blocks begin with a line that opens one level is balanced afterwards if and only if no line of a block closes more than the block has open or, when there is no block, at most one brace opens after the last that closes |
| `JitsiJvb.KeepsTidy` | apps/jitsi.py:1325-1386 | A balanced file with at most one brace on a line is still one afterwards, in every branch |
| `JitsiJvb.ExtendedBalance` | apps/jitsi.py:1378-1386 | The balance of a file that has no `ice` block |
| `JitsiJvb.OtherLinesKept` | apps/jitsi.py:1325-1364 | Every line outside the `ice` blocks stays, in order, and the new block stands before the last one with a closing brace |
| `JitsiJvb.TcpAfterwards` | apps/jitsi.py:1325-1386 | TCP is on afterwards if and only if some line with a closing brace was left to insert the block before, or there was no block to replace |
| `JitsiJvb.SecondRun` | apps/jitsi.py:1320-1323 | A second run skips the file in exactly those cases |
| `JitsiJvb.OnlyIce` | apps/jitsi.py:1346-1364 | A file that is all `ice` block is written empty |
| `JitsiJvb.LastChar` | apps/jitsi.py:1382-1382 | The last closing brace of the text |
| `JitsiKeys.PatchCoturn` | apps/jitsi.py:1568-1611 | The loop over the directives, each of which may rewrite all lines, does what one pass over the lines does; nothing is written exactly if nothing is wrong |
| `JitsiKeys.ReadKeys` | apps/jitsi.py:1569-1575 | The keys counted are those of the lines that are neither blank nor comments |
| `JitsiKeys.UpdateLines` | apps/jitsi.py:1587-1600 | The inner loop rewrites exactly the lines that carry another value, and reports whether there was one |
| `JitsiKeys.Round` | apps/jitsi.py:1577-1600 | One directive, on the file as those before left it, acts on the original lines |
| `JitsiKeys.ChangeNeeded` | apps/jitsi.py:1577-1611 | The file changes if and only if a directive is missing or a line is stale |
| `JitsiKeys.LinesStay` | apps/jitsi.py:1577-1600 | Every line keeps its place, and its text unless it carried another value; afterwards each such line carries the value |
| `JitsiKeys.Complete` | apps/jitsi.py:1577-1583 | The keys afterwards are those before and the required ones |
| `JitsiKeys.ValueTakes` | apps/jitsi.py:1570-1600 | Every line counted under `cert` or `pkey` carries the path if and only if none has something between the key and the `=` |
| `JitsiKeys.CoturnTwice` | apps/jitsi.py:1568-1611 | A second run finds nothing to do |
| `JitsiKeys.RequiredFine` | apps/jitsi.py:1545-1566 | The directives of a host with a valid name are ones that all this holds for |
| `JitsiHarvester.PatchHarvester` | apps/jitsi.py:1440-1476 | The text written, for a readable and for an unreadable file, is the one that the lemmas below are about |
| `JitsiHarvester.Complete` | apps/jitsi.py:1452-1472 | Both keys are set, every line for one carries its address, every other line is where and as it was |
| `JitsiHarvester.Twice` | apps/jitsi.py:1440-1476 | A second run writes the same text, whatever the file was |
| `JitsiTexts.GuestText` | apps/jitsi.py:1765-1774 | The guest block as it is written |
| `JitsiTexts.LineKinds` | apps/jitsi.py:1812-1824 | Which lines the removal takes for a guest comment, and which end the block |
| `JitsiTexts.LoginText` | apps/jitsi.py:1895-1904 | The block of `jicofo.conf` as it is written |
| `JitsiTexts.IceText` | apps/jitsi.py:1348-1358 | The block of `jvb.conf` as it is written |
| `JitsiTexts.DirectiveTexts` | apps/jitsi.py:1545-1566 | The lines that `turnserver.conf` gets when it has none of the directives, with either kind of certificate |
| `JitsiTexts.RewrittenKeys` | apps/jitsi.py:1587-1587 | Only `cert` and `pkey` are put right where they are |
| `JitsiTexts.HarvesterTexts` | apps/jitsi.py:1446-1449 | The two properties as they are written |
| `RateLimiter.Limiter.Prune` | auth/jwt_auth.py:36-48 | What goes has no attempt newer than the cutoff, or was evicted by the cap; the cap takes only keys no more recently active than every kept key, and only down to its limit |
| `RateLimiter.Limiter.Check` | auth/jwt_auth.py:51-61 | While the clock never went back, locked out if and only if at least 5 failures of the address since the cap last evicted it are newer than five minutes, over the full history; and which buckets are left, with what in them |
| `RateLimiter.Limiter.Record` | auth/jwt_auth.py:64-67 | Adds one failure to the history; at most one address is evicted; never more than 4096 buckets, none empty, whatever the clock does |
| `RateLimiter.CountIsRight` | auth/jwt_auth.py:56-61 | What pruning dropped never counts again: the count over the bucket is the count over the history |
| `RateLimiter.BucketsSorted` | auth/jwt_auth.py:55-67 | With a steady clock every bucket is in order of time |
| `AdhocCredentials.Store.Oldest` | core/adhoc_credentials.py:36-36 | The first entry with the least expiry |
| `AdhocCredentials.Store.Prune` | core/adhoc_credentials.py:30-37 | Drops exactly the expired entries and, above the cap, the earliest-stored ones |
| `AdhocCredentials.Store.Put` | core/adhoc_credentials.py:40-53 | Stores one entry after pruning: afterwards there are those not expired, at most 256, and one more; the token is then good for it |
| `AdhocCredentials.OverTheCap` | core/adhoc_credentials.py:23-53 | 257 calls in a row leave 257 entries |
| `AdhocCredentials.Store.Take` | core/adhoc_credentials.py:56-75 | Yields what was stored if and only if the token was issued, never presented or discarded, not evicted, has not expired, and user and guest match; a presented token is spent either way |
| `AdhocCredentials.Store.Discard` | core/adhoc_credentials.py:78-83 | The token is spent |
| `MetricPruning.RemoveLabels` | clients/prometheus_exporter.py:275-282 | The series goes from the given collectors and nothing else does |
| `MetricPruning.RemoveAll` | clients/prometheus_exporter.py:297-299 | The stale series go from the group's collectors and nothing else does |
| `MetricPruning.StaleMeans` | clients/prometheus_exporter.py:294-299 | What a boundary prunes was touched in the cycle before the finished one and not in that one |
| `MetricPruning.NextCall` | clients/prometheus_exporter.py:285-302 | After every call `seen` is what was touched since the start of the previous cycle |
| `MetricPruning.Exporter.PruneCycle` | clients/prometheus_exporter.py:285-302 | The group's state advances, and at a boundary its stale series are removed from all its collectors |
| `MetricPruning.Exporter.Update` | clients/prometheus_exporter.py:309-383 | Every exported series is in `seen`; in a call that begins with a cycle boundary, a series stays on a collector if and only if it was there and a call of the finished cycle touched it, or this call sets it; the collectors of other groups are unchanged, wherever the call breaks off |
| `MetricPruning.Site.Update` | clients/prometheus_exporter.py:497-563 | After a complete call, a series that is not on the list is gone if and only if it was recorded; a call cut short by an exception removes nothing and records nothing |
| `RequestAuth.Server.StartSession` | auth/session_manager.py:47-63 | A row for the user under a fresh id; an id whose row was not committed never authenticates |
| `RequestAuth.Server.RevokeSession` | auth/session_manager.py:74-78 | The session's row is revoked, if it has one |
| `RequestAuth.Server.Restore` | routes/auth.py:97-148 | The answer and the rows in every case: a remember-me login counts if and only if the cookie names no known user and its marker is not refused; a refused one of an active user ends the request |
| `RequestAuth.Server.LocalBypass` | auth/local_network.py:194-254 | The answer and the rows in every case: logs the admin in exactly for an unauthenticated direct request from a trusted address with the bypass on; ends a bypass session as soon as one of these fails |
| `RequestAuth.Server.CloudflareAccess` | auth/cloudflare_access.py:167-232 | The answer and the rows in every case: an unauthenticated client is logged in, in a cleared session with its own row, if and only if a valid token names an active account; with local login barred, a request without one stops, and any other goes on as it came |
| `RequestAuth.Server.EnforceSession` | auth/session_manager.py:85-108 | Stays authenticated if and only if the session has an unrevoked row |
| `RequestAuth.Server.ThreeHooks` | auth/session_manager.py:85-120 | After the three hooks an authenticated session has an unrevoked row, and the conditions of the bypass hold if it carries its flag; while the database works, the answer and the rows are the ones that the bypass, Access and revocation together give |
| `RequestAuth.Server.Handle` | app.py:240-252 | The same for a whole request with any cookie; its id was never revoked before, and with a cookie that the server sent the row is that user's; a client whom only a valid token vouches for comes out logged in |
| `RequestAuth.ExemptMeans` | auth/local_network.py:197-199 | Only static files and the mobile interface get by without the hooks |
| `RequestAuth.CloudflareMeans` | auth/local_network.py:95-116 | Three headers and one cookie mark a request that came through Cloudflare |
| `RequestAuth.Server.Login` | routes/auth.py:225-244 | A new session with a row of its own |
| `RequestAuth.Server.Logout` | routes/auth.py:257-274 | The session's id is dead before the user is logged out |
| `RequestAuth.Server.Revoke` | routes/security.py:122-134 | The row's id is dead |
| `RequestAuth.Server.RemoveAccount` | models.py:1130-1142 | The rows of the account go with it, and their ids are dead |
| `RequestAuth.Server.PutAccount` | models.py:228-230 | Creating or deactivating an account touches no session row; the next request sees it |
| `RequestAuth.Server.Configure` | auth/local_network.py:127-143 | A change of the settings touches no session; the next request sees it |
| `CredentialEpoch.StampAdvances` | models.py:207-222 | The new stamp is later than the old by at least a whole second in its epoch, whatever the clock says |
| `CredentialEpoch.SameEpoch` | auth/jwt_auth.py:87-99 | Two stamps have the same epoch only if no change lies between them |
| `CredentialEpoch.User.SetPassword` | models.py:207-223 | The stamp strictly increases, also when the clock stands still or goes back |
| `CredentialEpoch.FractionBefore1970` | models.py:212-220 | A first stamp before 1970 that is not a whole second would share its epoch with the next |
| `CredentialEpoch.User.MintPwd` | auth/jwt_auth.py:116-143 | A token carries the epoch current when it is minted |
| `CredentialEpoch.User.Predates` | auth/jwt_auth.py:102-109 | True exactly if a password change happened after the token was minted |
| `CredentialEpoch.User.MarkerRefused` | routes/auth.py:85-94 | The same for remember-me markers |
| `LineLog.Logger.Feed` | apps/harmony.py:174-178 | The log is the whole lines of all chunks so far, and the buffer holds no line break |
| `LineLog.Logger.Flush` | apps/harmony.py:180-183 | The rest is logged unless it is blank |
| `LineLog.OutputLogged` | apps/harmony.py:61-183 | Output made of plain pieces and escape sequences, with lines ended by LF, CR LF or CR and cut anywhere but inside an escape or between CR and LF, is logged as the plain text of each line |
| `LineLog.SequenceGoes` | apps/harmony.py:61-61 | ESC, a bracket, digits and semicolons and a letter are removed |
| `LineLog.EscapeStays` | apps/harmony.py:61-61 | An ESC that begins no such sequence stays |
| `LineLog.ChunkingIndependence` | apps/harmony.py:163-183 | However a stream is cut, the log is that of the whole text if and only if no cut is inside an escape or between CR and LF |
| `HarmonyDoctor.Evaluate` | apps/harmony.py:260-317 | Healthy if and only if Containers has a check and no failed one, `migrations` and `auth` are reported elsewhere, and no gated check fails elsewhere; one verdict for each |
| `HarmonyReport.OutputMeans` | apps/harmony.py:260-317 | For every output of titles, findings and other lines: healthy if and only if there is a finding under the title Containers, none there says FAIL, `migrations` and `auth` are reported elsewhere, and `database`, `migrations`, `auth` and `livekit` say FAIL nowhere; WARN counts like OK |
| `HarmonyReport.FindingReads` | apps/harmony.py:62-62 | A line `[ WORD ] name detail` is read back: OK, WARN or FAIL by its word, and the text after it |
| `HarmonyDoctor.Note` | apps/harmony.py:294-300 | Of several reports of one check the worst is kept |
| `HarmonyDoctor.VerdictsMean` | apps/harmony.py:303-317 | All verdicts passed if and only if the output means healthy |
| `HarmonyDoctor.PolicyMeans` | apps/harmony.py:331-344 | The policy check passes if and only if the query succeeded and its last filled line is a number other than zero |
| `HarmonyUpgrade.CheckRound` | apps/harmony.py:347-359 | A round passes if and only if the version is the target and all checks pass |
| `HarmonyUpgrade.Verify` | apps/harmony.py:745-763 | At most three rounds; success exactly with the first round that verifies |
| `HarmonyUpgrade.Run` | apps/harmony.py:685-774 | The update is issued if and only if all guards admit it, at most once and after the protection; the version is recorded if and only if the update went through and one of the rounds verified it, the last one made |
| `HarmonyUpgrade.NeverBack` | apps/harmony.py:692-709 | An admitted update is to a stable release whose three numbers are above those of the installed version, or the same where that is a pre-release |
| `HarmonyUpgrade.StrictMeans` | apps/harmony.py:46-46 | A target is three numbers with dots between them and nothing else |
| `VersionOrder.Irreflexive` | apps/utils.py:426-454 | Nothing is newer than itself |
| `VersionOrder.Transitive` | apps/utils.py:426-454 | On all texts |
| `VersionOrder.Total` | apps/utils.py:426-454 | Of two texts that parse, they are the same version or exactly one is newer |
| `VersionOrder.MajorDecides` | apps/utils.py:444-445 | Of two written versions the one with the greater major number is newer, whatever follows it |
| `VersionOrder.MinorDecides` | apps/utils.py:444-445 | With the same major number, the one with the greater minor number |
| `VersionOrder.PatchDecides` | apps/utils.py:444-445 | With the same two numbers, the one with the greater patch number |
| `VersionOrder.TagDecides` | apps/utils.py:454-454 | Of two pre-releases of one release, the one whose tag has the greater character where they first differ, or continues the other |
| `VersionOrder.StableIsNewer` | apps/utils.py:447-453 | A stable release is newer than its pre-releases |
| `VersionOrder.BuildIgnored` | apps/utils.py:435-435 | Build metadata is ignored |
| `VersionOrder.RoundTrip` | apps/utils.py:434-439 | A version written out is read back as it was, with or without a leading v |
| `VersionOrder.ParseMeans` | apps/utils.py:434-439 | A text is read as a version if and only if its core is three numbers with dots between them, and perhaps a tag |
| `VersionOrder.CoreOnly` | apps/utils.py:435-435 | The core is what is left without leading `v`s and without a `+` and what follows it |
| `PrometheusJobs.Dedupe` | apps/exporters.py:131-142 | Terminates with the base or its least free suffix from 2 on, which was not in use |
| `PrometheusJobs.SlugIsSafe` | apps/exporters.py:119-128 | A slug is never empty, has only safe characters and no underscore at its ends, and is its own slug |
| `PrometheusJobs.Group` | apps/exporters.py:1009-1056 | The targets of each type are those of its installed exporters with a usable address, in order; IPMI is set aside |
| `PrometheusJobs.GroupGuests` | apps/exporters.py:1009-1023 | The loop over the guests' exporters |
| `PrometheusJobs.GroupHosts` | apps/exporters.py:1026-1041 | The loop over the hosts' exporters |
| `PrometheusJobs.EmitTypes` | apps/exporters.py:1058-1068 | One job for each type, in order, with exactly its targets, sorted |
| `PrometheusJobs.EmitIpmi` | apps/exporters.py:1070-1092 | One job for each IPMI exporter, in the ascending order of the tuples, with exactly its target |
| `PrometheusJobs.WholeFile` | apps/prometheus_app.py:761-791 | The names in the file differ if and only if no base is one of the fixed names in it |
| `PrometheusJobs.Generate` | apps/exporters.py:1009-1106 | The fixed jobs stand first and last, every target is in exactly one of the others, each of which has its base name or the least free suffix, and all job names differ if and only if no type present goes by a fixed name |
| `PrometheusJobs.RegistryNamesDiffer` | apps/exporters.py:32-106 | With types of the registries that condition always holds |
| `PrometheusTexts.TargetsMean` | apps/exporters.py:1011-1056 | What the targets of a type are, as texts: guests with an address of their own, hosts unless the type is IPMI's, and the videobridge on port 8080 |
| `PrometheusTexts.RegistryNames` | apps/exporters.py:32-106 | The job name of each type |
| `PrometheusTexts.RegistryTypes` | apps/exporters.py:32-106 | The types that the registries know |
| `PrometheusTexts.SlugJoins` | apps/exporters.py:116-128 | A run of unsafe characters in a host name counts as one underscore |
| `PrometheusTexts.SlugTrims` | apps/exporters.py:127-128 | Underscores at the ends go; of nothing, `unnamed` is made |
| `PrometheusTexts.IpmiOrderMeans` | apps/exporters.py:1074-1074 | IPMI jobs go by controller, host, port and name |
| `UpgradeLock.Keeps` | apps/utils.py:84-124 | Every step of every client keeps one lock for each application, one client in the guard, and one owner of each locked lock |
| `UpgradeLock.MutualExclusion` | apps/utils.py:111-124 | In every interleaving at most one client is in the body with an application's lock |
| `UpgradeLock.SameLock` | apps/utils.py:84-91 | An application maps to the same lock for ever, and no other application does |
| `UpgradeLock.RefusedExactly` | apps/utils.py:94-100 | The acquire fails if and only if another client owns the lock of the same application |
| `UpgradeLock.NobodyBlocks` | apps/utils.py:84-124 | Only a client at the occupied guard has to wait |
| `UpgradeLock.GuardFrees` | apps/utils.py:84-91 | The client inside the guard leaves it within two of its steps |
| `UpgradeLock.ReleaseIsNoOp` | apps/utils.py:103-108 | A release changes nothing if and only if the lock of the application is not locked at that moment |
| `UpgradeLock.OnlyByStrayRelease` | apps/utils.py:84-124 | In every run in which clients may release at any time, two are in one body only after a release of a lock under a client in its body |
| `UpgradeLock.StrayRelease` | apps/utils.py:103-108 | A release by another client than the owner lets a second client into the body |
| `UpgradeLock.StrayRun` | apps/utils.py:103-108 | A whole run with one such release that ends with two clients in the body |
| `Quoting.TomlRoundTrip` | apps/unpoller.py:844-854 | Whatever follows it, the quoted value is read back as it was if and only if its only control characters are tab, LF and CR; otherwise it is not read at all |
| `Quoting.TomlSafeMeans` | apps/unpoller.py:844-854 | Which values those are, character by character |
| `Quoting.EscapeStep` | apps/unpoller.py:852-854 | The five replacements one after the other act as one on each character |
| `Quoting.YamlRoundTrip` | apps/exporters.py:145-155 | The quoted value is read back with CR removed and LF as a space, unless it has a control character that YAML refuses |

## Left out

- The SSH, Proxmox, GitHub, UniFi, Redfish and PBS clients, and the shell text of the commands: network input and output.
- Mastodon: pre-flight checks, snapshots, `pg_dump`, version tracking and the sync of the second guest, which run outside the SSH sequence; compliance remediation is one opaque gating command.
- apps/ghost.py and the PeerTube, Elk, Jibri and Prometheus installers: straight-line sequences or the shape of the Mastodon upgrade with less state.
- The patches of `config.js` and of Prosody's TURN section: the same substitutions with less structure.
- JWT and Access token validation, session signing, auto-provisioning and role checks: their verdict is an input of `RequestAuth`.
- Metric values, logs and the text of verdict details: only label sets, lines and verdicts matter here.
- Failures of the database while settings are saved at the end of the Harmony upgrade.
- RateLimiter.Limiter.Prune: which of several keys with the same last activity is evicted is left open.
- RequestAuth.Server.Handle: the throttled `last_seen_at` write, and a revocation that arrives between the hooks and the view.
- HarmonyDoctor.PolicyMeans: digits beyond 0-9, which the source's `isdigit` also takes.
- HarmonyDoctor.Evaluate: takes the lines of the output without escapes; which characters end a line is the source language's `splitlines`.
- VersionOrder.RoundTrip: digits beyond 0-9, which the source's pattern also takes.
- PrometheusJobs.SlugIsSafe: takes the lower-cased text; `Lowered` is exact but for the two characters outside ASCII whose lower case begins with an ASCII letter.
