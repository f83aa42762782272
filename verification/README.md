# Verified models of Angerona's watchdogs, Black Box recorder and release tools

A Dafny project that models the parts of Angerona in which state, loops or arithmetic decide something,
and proves what they promise. `dafny verify dfyconfig.toml` checks all of it.

Code that changes fields, arrays or variables step by step is imperative here too: classes and loops
proved against functions of their inputs, and then theorems about those functions over all inputs, all
traces and all runs. Code made of expressions is functions and lemmas.

| module | what it models |
|---|---|
| `ReleaseClosure` | the worklist over requested extras that validates the release hash lock |
| `FreezeWatchdog`, `HeartbeatRecord` | the freeze detector's tick loop; the 32-byte heartbeat record and its authentication |
| `AgentSupervisor`, `AgentMonitor`, `StopAuthority`, `RestartThrottle` | launching, watching, stopping and relaunching the agent |
| `InspectorWake` | the two-flag wake protocol between the GUI and an inspector thread |
| `LogTail`, `Utf8Stream`, `Utf8WellFormed` | the bounded incremental log tailer, the streaming decoder under it, and what that decoder must read |
| `ReportWalk` | the explicit-stack walk over a stored self-test report |
| `BundleCapture`, `CaptureReference`, `CaptureTotals`, `GapLedger`, `BundleExport`, `ExportLifecycle` | the diagnostic export: budgeted copy, gap ledger, bounded archive, no-overwrite publication, worker and shutdown lifecycle |
| `HeartbeatComparison` | the comparison of successive status heartbeats |
| `HistoryRelocation` | copying report history between two relationship tables |
| `ReleaseVersion`, `Base64Url`, `ReleaseAuthority` | version packing and printing, unpadded base64url, threshold finalisation |
| `Wrappers` | what the modules share: options, bytes, powers of two |

## How the world is modelled

- Clocks, file contents, process deaths, user actions and failures are inputs: arbitrary traces of ticks,
  events, polls or snapshots, or arbitrary choices at each step. Time is integer nanoseconds (watchdogs),
  integer milliseconds (shutdown) or real seconds (heartbeats).
- SHA-256, HMAC, Ed25519, dates, markers of requirements and version specifiers are uninterpreted
  functions; the theorems hold for all of them.
- Fixed-width arithmetic is explicit where it can matter: little-endian words, the flag mask, the 64-bit
  shift of `backoff`, the 48/32/16-bit packing of versions.
- An identity check together with the operation it guards is one step, except before publication, and so is
  one poll of one file.

## Where the code does less than one might expect

Each comes with the lemma or contract that shows it, and with what does hold.

- `copy` returns a placeholder without charging the node budget once the depth or a budget is exceeded, so the
  budget of 2048 does not bound the nodes that come out: a value of 64 lists of 64 None below three lists gives
  4164 (`NodesExceedTheBudget`). The output stays within the budget exactly when the copy without that budget
  does, or the budget is spent inside the last value before any placeholder (`TotalWithinBudgetExactly`); while
  characters last, the former can be counted on the values themselves (`AmpleTotalExactly`). The output never has
  more than one node a call and 65 for each of the 2048 (`WholeExportHasABound`).
  Characters are bounded by exactly 32768.
- `_emit_text` strips leading newlines before it joins the carried context, so the classifier can see a
  marker that the log does not hold (`StrippingCanJoin`). Of markers without a newline this cannot happen exactly
  when there is nothing to join, no newline was stripped in front, the earlier text ended its line, or the log
  holds the joined line as well (`ClassifiedMarkersAreRealExactly`). No real marker is ever lost.
- The freeze detector's regression check is off while the last timestamp is 0, so a falling counter is accepted
  then (`ZeroTimestampSkipsTheCheck`). Nothing accepted later steps back behind an accepted record, in any trace,
  exactly when its timestamp is not 0 or its counter is 0 (`OrderIsKeptExactly`).
- A stale beat with flags 0, left by an earlier instance, reads as a clean exit (`StaleCleanBeatIsBelieved`). A
  clean verdict comes from a beat written since the watch began, whatever happens, exactly when the beat found
  then was missing or had other flags than 0 (`CleanIsFreshExactly`).
- The shift in `backoff` is exact up to a count of 34 and no further, and negative at 35; supervision reaches it
  with 1, 2 or 3 only (`ShiftIsExactUpTo34`, `BackoffIsCappedDoubling`, `GoingOnIsCalm`).
- Several texts decode to the same bytes as base64url (`DecodingIsNotInjective`, `UntidyTextsAreRead`); exactly
  the tidy one of them is printed (`PrintedExactlyWhenTidy`, `PrintedTexts`).
- If closing the stream fails after the link step and no gap was recorded, the status is failed while
  `published` is true (`BundleExport.Build`).
- An OSError raised while a crash snapshot is written to the archive is taken for a failed directory scan: it
  leaves a gap and the export goes on with that member cut short (`BundleExport.Builder.CrashSnapshots`); every
  limit still holds, the cut member included (`Populate`).

## Model

| member | source | states |
|---|---|---|
| `ReleaseClosure.ValidateClosure` | tools/build_release_hash_lock.py:96-132 | accepts exactly when names are distinct and every requirement that the least closure needs has no URL, names a supplied wheel, accepts its version and asks only for extras it declares; each refusal shows a needed requirement with that very defect and none tested earlier; cyclic graphs end |
| `ReleaseClosure.AcceptableExactly` | tools/build_release_hash_lock.py:112-128 | a closure is faultless exactly when all its needed requirements meet the four conditions, and no other condition counts |
| `ReleaseClosure.VerdictShowsTheDefect` | tools/build_release_hash_lock.py:118-128 | whatever refuses a closure is the first defect, in the order of the tests, of some needed requirement of that wheel on that dependency |
| `ReleaseClosure.AcceptableIffCertified` | tools/build_release_hash_lock.py:107-132 | the least-fixpoint verdict equals the existence of one closed, faultless assignment of extras |
| `ReleaseClosure.CertificateCovers` | tools/build_release_hash_lock.py:110-132 | every closed assignment contains every extra that any chain of requirements requests |
| `ReleaseClosure.VerdictIgnoresOrder` | tools/build_release_hash_lock.py:103-116 | permuting the wheels and permuting each wheel's requirements leaves the verdict unchanged, cycles included |
| `ReleaseClosure.Enroll` | tools/build_release_hash_lock.py:102-109 | the table holds every artifact once, or a duplicate name is reported exactly when there is one |
| `ReleaseClosure.Drain` | tools/build_release_hash_lock.py:109-132 | the emptied queue proves the verdict, an early return names a fault of the least closure, and pops are bounded |
| `ReleaseClosure.ProcessEntry` | tools/build_release_hash_lock.py:110-132 | one popped entry keeps the worklist invariant; each queued name is paid for by at least one newly granted extra |
| `ReleaseClosure.GrantExtras` | tools/build_release_hash_lock.py:126-132 | new extras are granted and their owner is queued again, at most once for at least one new extra |
| `FreezeWatchdog.Watch` | frz/frz_watchdog.go:237-296 | over every tick trace the loop ends at the first tick that decides, with that decision; it isolates and kills exactly on a freeze and writes one alert for the three alarming ends |
| `FreezeWatchdog.DecisionExactly` | frz/frz_watchdog.go:244-296 | each decision, read off the trace: which ticks end the watch as gone, forged, stopped, replayed or frozen, and in which order the tests come |
| `FreezeWatchdog.Time` | frz/frz_watchdog.go:273-295 | the freeze timer fires exactly when the first repeat since the last advance is two seconds old at this tick |
| `FreezeWatchdog.KillMeansTwoStillSeconds` | frz/frz_watchdog.go:282-295 | before a kill all readable records of at least two seconds were authentic, running and equal in timestamp and counter |
| `FreezeWatchdog.FrozenBeatIsCaught` | frz/frz_watchdog.go:273-295 | with a clock that never goes back, a beat seen still for two seconds always ends the watch |
| `FreezeWatchdog.StillSinceIsUnique` | frz/frz_watchdog.go:276-286 | the tick from which stillness is measured is the only one: the timer has no choice |
| `FreezeWatchdog.UnreadableTickChangesNothing` | frz/frz_watchdog.go:250-254 | deleting a tick whose record could not be read leaves every other tick's decision as it was |
| `FreezeWatchdog.AcceptedBeatsAreOrdered` | frz/frz_watchdog.go:266-272 | accepted records never step back in (timestamp, counter) once a timestamp is non-zero |
| `FreezeWatchdog.ZeroTimestampSkipsTheCheck` | frz/frz_watchdog.go:266-272 | any two acceptable records with timestamp 0 and a falling counter are both accepted and the watch goes on |
| `FreezeWatchdog.OrderIsKeptExactly` | frz/frz_watchdog.go:255-272 | after an accepted record no trace has a later one accepted that steps back behind it, exactly when its timestamp is not 0 or its counter is 0 |
| `HeartbeatRecord.ReaderInvertsWriter` | frz/frz_watchdog.go:151-156 | reading a written record gives back every field |
| `HeartbeatRecord.WriterInvertsReader` | frz/frz_watchdog.go:150-156 | writing what was read gives back all 32 bytes: the layout has no gap and no overlap |
| `HeartbeatRecord.WriteWatchdogBeat` | frz/angerona_watchdog.go:212-227 | the buffer filled at fixed offsets is the encoding of the beat |
| `HeartbeatRecord.BeatBytes` | frz/angerona_watchdog.go:212-227 | place by place: magic, time, pid, the first eight bytes of the digest of token and little-endian counter, the counter, and flags 1 |
| `HeartbeatRecord.LittleFour` | frz/angerona_watchdog.go:221-226 | little-endian: the first of four bytes is the lowest |
| `HeartbeatRecord.AuthenticateRecord` | frz/frz_watchdog.go:179-205 | accepts exactly records of the right magic and pid, with one of two flag values and the proof of the payload |
| `HeartbeatRecord.FillPayload` | frz/frz_watchdog.go:186-197 | the payload buffer filled at running offsets holds prefix, component, timestamp, pid, counter and flags |
| `HeartbeatRecord.PayloadIsInjective` | frz/frz_watchdog.go:186-197 | the payload determines timestamp, pid, counter and flags |
| `HeartbeatRecord.AcceptedRecordIsUnique` | frz/frz_watchdog.go:179-205 | two accepted records with one payload are one record |
| `HeartbeatRecord.OlderWriterIsRefused` | frz/angerona_watchdog.go:219-227 | whatever the digests are, a beat of the other watchdog is read field for field and refused |
| `InspectorWake.NoLostWakeUp` | blackbox_recorder.py:1026-1049 | in every interleaving, with the GUI idle, a worker blocked without timeout on a clear event is running and inactive |
| `InspectorWake.StopIsPrompt` | blackbox_recorder.py:1035-1049 | after stop returns the worker ends within four own steps and never waits, in every interleaving |
| `InspectorWake.SelectingTheTabIsPrompt` | blackbox_recorder.py:1026-1048 | when set_active(true) raises the event a poll starts within five own steps without waiting |
| `InspectorWake.HiddenViewGoesQuiet` | blackbox_recorder.py:1039-1049 | an inactive worker is asleep within seven own steps and starts no new poll |
| `InspectorWake.OnlyStopEndsTheInspector` | blackbox_recorder.py:1040-1043 | no run ends the worker unless stop was called |
| `RestartThrottle.RestartLog.GiveUp` | frz/angerona_watchdog.go:443-454 | compacting in place leaves precisely the failures of the last window, in order, then the new one; true exactly when more than three are kept |
| `RestartThrottle.LogIsTheLastMinute` | frz/angerona_watchdog.go:443-453 | filtering after every failure equals filtering the whole history once, for a clock that never goes back |
| `RestartThrottle.StormExactly` | frz/angerona_watchdog.go:443-454 | the limit is passed exactly by a fourth failure in under sixty seconds |
| `RestartThrottle.BackoffIsCappedDoubling` | frz/angerona_watchdog.go:456-462 | the 64-bit shift is exact and capped up to a count of 34 and is negative at 35 |
| `RestartThrottle.ShiftIsExactUpTo34` | frz/angerona_watchdog.go:457 | the shift keeps its value in the 64-bit word exactly up to a count of 34 |
| `RestartThrottle.CalmBackoff` | frz/angerona_watchdog.go:456-462 | while no storm was declared the delay is at least a second and under the cap |
| `StopAuthority.AuthenticatedStop` | frz/angerona_watchdog.go:407-440 | true exactly for a well-formed, fresh command whose signature is the MAC under this 32-byte token |
| `StopAuthority.HexDecodesExactly` | frz/angerona_watchdog.go:429-432 | a text decodes to exactly the bytes whose two digits it spells, in either case, and otherwise not at all |
| `AgentMonitor.Monitor` | frz/angerona_watchdog.go:369-403 | over every order of events it returns the reason of the first event that decides |
| `AgentMonitor.DecisionExactly` | frz/angerona_watchdog.go:375-401 | an event is a stop exactly under a shutdown or an authorised stop; else a death exactly if the process died, clean exactly on a beat with flags 0, and a suspension exactly on a stall of over five seconds with flags 1 |
| `AgentMonitor.LastTsExactly` | frz/angerona_watchdog.go:372-397 | the timestamp compared with is that of the last beat that could be read |
| `AgentMonitor.DeathUnderStopIsAStop` | frz/angerona_watchdog.go:376-383 | a death seen while the operator's stop is in force is never a crash |
| `AgentMonitor.SuspensionMeansStall` | frz/angerona_watchdog.go:395-400 | a suspension is five seconds in which every readable beat showed one timestamp, with flags 1 |
| `AgentMonitor.StallIsCaught` | frz/angerona_watchdog.go:395-400 | such a stretch of a running agent ends the watch |
| `AgentMonitor.StaleCleanBeatIsBelieved` | frz/angerona_watchdog.go:391-394 | one poll that reads a beat with flags 0 left in the file by an earlier instance ends the watch as clean |
| `AgentMonitor.CleanIsFreshExactly` | frz/angerona_watchdog.go:372-394 | over every sequence of events a clean verdict comes from a beat other than the one found when the watch began, exactly when that one was missing or had other flags than 0 |
| `AgentSupervisor.Supervise` | frz/angerona_watchdog.go:280-365 | over every script of attempts: which pass ends the run and how, every launch with its token, recovery mark and checked digest, and every sleep |
| `AgentSupervisor.FailureIsRelaunched` | frz/angerona_watchdog.go:306-363 | a launch that fails, or whose first deciding event is a death or a suspension, is followed by the next pass, unless it is the fourth failure in under sixty seconds |
| `AgentSupervisor.LaunchedExitsExactly` | frz/angerona_watchdog.go:338-354 | a launched pass ends cleanly, or as stopped, exactly when its first deciding event says so |
| `AgentSupervisor.CleanExitMeansACleanBeat` | frz/angerona_watchdog.go:338-354 | a run ends cleanly only by a poll that read a beat with flags 0 while no stop was in force and nothing had decided before |
| `AgentSupervisor.RefusalsExactly` | frz/angerona_watchdog.go:288-298 | a pass launches exactly when no stop under the previous launch's token is in force and the binary has the baseline digest; the first test comes first |
| `AgentSupervisor.LogsExactly` | frz/angerona_watchdog.go:300-363 | the launches and sleeps of a run one by one: own token, recovery from the second on, digest checked, delay by the failures of the last minute |
| `AgentSupervisor.VerifyIntegrity` | frz/angerona_watchdog.go:182-195 | passes exactly a digest equal to the baseline; the first digest becomes a missing baseline |
| `AgentSupervisor.OneBaseline` | frz/angerona_watchdog.go:182-195 | all launches of a run had one digest, and it is the configured one if there is one |
| `AgentSupervisor.NothingAfterAnEnd` | frz/angerona_watchdog.go:288-364 | no run goes on past a clean exit, an authenticated stop, a refused binary or a storm |
| `AgentSupervisor.StoppedDeathIsFinal` | frz/angerona_watchdog.go:338-348 | a death under a stop signed with this launch's token ends the run |
| `AgentSupervisor.OnlyTheLatestTokenStops` | frz/angerona_watchdog.go:289-304 | without a shutdown signal only the latest launch's token can end a run as stopped |
| `AgentSupervisor.GoingOnIsCalm` | frz/angerona_watchdog.go:356-363 | backoff is reached with 1, 2 or 3 only and never overflows or hits the cap |
| `AgentSupervisor.FiveLaunchesTakeAMinute` | frz/angerona_watchdog.go:288-364 | with a clock that never goes back, any five consecutive launch attempts span at least 61 seconds |
| `AgentSupervisor.GivesUpExactly` | frz/angerona_watchdog.go:306-360 | with a clock that never goes back, a pass ends the run as a storm exactly when its attempt fails and is the fourth failure in under sixty seconds |
| `Utf8Stream.DecodeInPieces` | blackbox_recorder.py:664-668 | wherever a byte stream is cut, the pieces decode, with the carried bytes, to the text of the whole |
| `Utf8Stream.ChunkingIsInvisible` | blackbox_recorder.py:664-668 | encoded text survives any sequence of chunks unchanged |
| `Utf8Stream.DecodeInvertsEncode` | blackbox_recorder.py:664 | every Unicode scalar text decodes from its UTF-8 bytes with nothing left over |
| `Utf8WellFormed.StepExactly` | blackbox_recorder.py:664-668 | what the decoder takes next is the character of a well-formed sequence, or one replacement for the longest front that could have begun one, or it waits exactly while what is left could still become one |
| `Utf8WellFormed.WellFormedIsEncoded` | blackbox_recorder.py:664-668 | the well-formed sequences are the encodings of the scalar values |
| `LogTail.LogTailWorker.ConsumeTail` | blackbox_recorder.py:650-671 | one poll advances this path's offset, decoder and context as specified, shows what it decoded and touches no other path |
| `LogTail.PollDisplays` | blackbox_recorder.py:635-671 | at every poll of a growing file the text shown is what this poll decoded, cut by newlines at both ends only, and nothing when that is empty; it is critical exactly when some marker stands in the last 512 characters decoded before, followed by that text |
| `LogTail.AnyPollDisplays` | blackbox_recorder.py:635-671 | the same of any single poll, from the context that it starts with, also after a restart; a poll that takes no bytes shows nothing |
| `LogTail.LogTailWorker.Reposition` | blackbox_recorder.py:650-666 | offset, decoder and context restart together on rotation or shrinking, or not at all |
| `LogTail.LogTailWorker.SafeTailBytes` | blackbox_recorder.py:560-583 | returns the bytes from the offset, at most 16 KiB, and the offset after them |
| `LogTail.LogTailWorker.Prime` | blackbox_recorder.py:586-592 | tailing starts at the last bytes of an existing file |
| `LogTail.EveryByteOnce` | blackbox_recorder.py:650-671 | over all polls of a growing file the chunks concatenate to the file's bytes since priming, and the context is the last 512 decoded characters |
| `LogTail.NoMarkerIsLost` | blackbox_recorder.py:635-671 | each newline-free marker of up to 513 characters is classified whole in the poll that decodes its last character |
| `LogTail.RestartIsAFreshStart` | blackbox_recorder.py:657-666 | after rotation or shrinking a file is tailed as if never seen |
| `LogTail.RestartForgetsThePast` | blackbox_recorder.py:655-671 | whatever was polled before a restart, all polls from it on leave the state of a path never seen before and consume the same bytes |
| `LogTail.EveryByteSinceTheRestart` | blackbox_recorder.py:650-671 | from the last restart on, each byte of the growing file is consumed once, from its start |
| `LogTail.NoMarkerIsLostSinceTheRestart` | blackbox_recorder.py:635-671 | and each newline-free marker of up to 513 characters in it is classified whole in the poll that decodes its last character |
| `LogTail.PollsMakeProgress` | blackbox_recorder.py:560-583 | a readable poll takes everything left or 16384 bytes |
| `LogTail.ClassifiedMarkerIsReal` | blackbox_recorder.py:635-645 | a classified marker is in the stream unless the decoded chunk begins with a newline after earlier text |
| `LogTail.ClassifiedMarkersAreRealExactly` | blackbox_recorder.py:635-645 | for every stream and chunk: only markers that the stream holds are classified, of those without a newline, exactly when stripping joins nothing or the stream holds the joined line too |
| `LogTail.StrippingCanJoin` | blackbox_recorder.py:636-642 | the exception is real: stripping joins context and a later line into a marker that the stream does not hold |
| `ReportWalk.HistoricalFailureRows` | blackbox_recorder.py:267-316 | of the rows met in order, up to 4096, exactly those that are failures are reported, in order, named, worded and dated as they should be; malformed, unsupported and misdated rows are counted exactly, and `limited` is set exactly when a row is left |
| `ReportWalk.ReportIsReadRight` | blackbox_recorder.py:252-316 | the walk agrees with a reading that classifies nothing: a row is a failure exactly if it is a mapping without "failures", its "module", or else its "name", is text with a character that is no space, and "detail" is absent or text; malformed if it is no mapping or fails that; unsupported if it has "failures" that may not be opened there |
| `ReportWalk.FlattenAgrees` | blackbox_recorder.py:284-315 | at every position of the flatten the visit is what that row is, under the date of its container |
| `ReportWalk.Walk` | blackbox_recorder.py:280-316 | the frame loop refines the flatten with never more than two frames, for any classification of rows |
| `ReportWalk.VisitsAreRows` | blackbox_recorder.py:280-316 | the flatten visits exactly the report's rows and those of its opened containers |
| `ReportWalk.EveryNodeCountsOnce` | blackbox_recorder.py:289-315 | visited nodes are failures plus malformed plus unsupported plus opened containers |
| `ReportWalk.FailuresInDocumentOrder` | blackbox_recorder.py:315 | failures come out in document order, none missing |
| `ReportWalk.StampsAreNearest` | blackbox_recorder.py:252-264 | every failure from any part of the walk carries its own valid date as an event, else its container's, else the report's, as a run |
| `ReportWalk.FlattenedStamps` | blackbox_recorder.py:284-315 | at every position of the flatten a failure is a row given, dated by itself or as inherited, or a row of a container given |
| `ReportWalk.ContainersAreNeverFailures` | blackbox_recorder.py:298-315 | a row with failures of its own is opened or unsupported; a failure has a textual name and detail |
| `BundleCapture.BundleCapture.CopyValue` | blackbox_recorder.py:2671-2718 | the copy that charges its fields as it goes equals the budget-passing copy, result and remaining budget |
| `BundleCapture.WholeExportIsBounded` | blackbox_recorder.py:2664-2718 | over any number of copies: at most 32768 characters of keys and strings, no budget negative, every node out either charged or counted as omitted |
| `BundleCapture.CopyIsAccounted` | blackbox_recorder.py:2671-2718 | characters out equal characters charged; nodes out lie between nodes charged and that plus what was counted as omitted |
| `BundleCapture.UncountedCopyIsFaithful` | blackbox_recorder.py:2671-2718 | if nothing was counted as omitted the copy is the value with tuples as lists |
| `BundleCapture.FittingValueIsCopiedWhole` | blackbox_recorder.py:2671-2718 | a value within every limit and the budget is copied whole at exactly its own price and nothing is counted |
| `CaptureReference.AmpleCopyIsClipped` | blackbox_recorder.py:2671-2718 | while no budget runs out the copy is the value with long texts cut at 512, items after 64, entries after 32, keys over 64 and everything below depth 4 left out, at its own price, and what was left out is counted exactly |
| `CaptureReference.CopyIsACut` | blackbox_recorder.py:2671-2718 | under any budget the copy is the value with texts, lists and mappings cut at their ends and some entries left out: nothing is changed, added or moved |
| `CaptureTotals.CopyFollowsWalk` | blackbox_recorder.py:2664-2718 | with nodes left, a copy puts out the nodes of the copy without a node budget, in order, cut at the last one that can be paid |
| `CaptureTotals.ExportTotal` | blackbox_recorder.py:2664-2718 | the output of a whole export is that walk, cut, and one placeholder for each value whose turn comes after the budget is spent |
| `CaptureTotals.TotalWithinBudgetExactly` | blackbox_recorder.py:2664-2718 | for every export and budget: the output has at most as many nodes as the budget exactly when the walk has, or its first nodes are all paid and the budget outlasts all values but the last |
| `CaptureTotals.AmpleTotalExactly` | blackbox_recorder.py:2664-2718 | while characters last the same holds of the nodes that the values show within the 64, 32 and depth limits |
| `CaptureTotals.AmpleTotal` | blackbox_recorder.py:2664-2718 | when no budget runs out, all nodes within the limits come out, and all of them are paid exactly when none lies below depth 4 |
| `CaptureTotals.PlaceholdersAreNotPaid` | blackbox_recorder.py:2672-2675 | a placeholder below the depth limit is free: of m lists of m None at that depth m*m+m+4 nodes come out and m+4 are paid |
| `CaptureTotals.NodesExceedTheBudget` | blackbox_recorder.py:2664-2718 | so 2048 does not bound the output: exactly those of these values with m >= 45 exceed it |
| `CaptureTotals.WholeExportHasABound` | blackbox_recorder.py:2664-2718 | what does: one node a call and 65 for each of the 2048 |
| `GapLedger.Ledger.Gap` | blackbox_recorder.py:2772-2784 | a known gap is counted in its row, a new one gets a row while there is room, any other is counted as omitted |
| `GapLedger.ReportedExactly` | blackbox_recorder.py:2775-2784 | a gap has one row, which is the one that counts it; only a new gap in a full table gets none |
| `GapLedger.Ledger.GapCount` | blackbox_recorder.py:3002-3003 | the reported count equals the number of gap calls despite merging and the 64-row cap |
| `BundleExport.Builder.ReadSource` | blackbox_recorder.py:2786-2853 | returns what the bounded reads deliver, within both limits, with a receipt truncated exactly when fewer bytes than the size at open came back; None leaves a gap under that source's name and has its reason in the source, a truncated or a changed receipt leaves a gap |
| `BundleExport.DeliveredIsTheFront` | blackbox_recorder.py:2814-2822 | reads that neither fail nor end early deliver the front of the source, as much as was wanted |
| `BundleExport.Builder.ReadChunks` | blackbox_recorder.py:2814-2823 | the chunk loop delivers exactly the bounded reads and charges every byte, also when it is cut short |
| `BundleExport.Builder.WriteMember` | blackbox_recorder.py:2855-2865 | a member goes in whole and within the member and byte limits, or is left out with one gap |
| `BundleExport.Builder.Settings` | blackbox_recorder.py:2867-2894 | the sanitized settings are in the archive or have a gap, and the source was read or has one |
| `BundleExport.Builder.CopyTail` | blackbox_recorder.py:2907-2911 | a diagnostic file is in the archive under its name with the bytes read of it, or has a gap |
| `BundleExport.Builder.ScanEntry` | blackbox_recorder.py:2921-2939 | a regular entry is in the archive under its number or has a gap; any other entry and a failed scan leave one |
| `BundleExport.Builder.CrashSnapshots` | blackbox_recorder.py:2912-2939 | at most 64 entries are looked at and at most 16 read; every regular entry met is in the archive, in order, or has a gap, and so has a scan that did not see the end; an OSError of the archive ends the scan with a gap instead of the export |
| `BundleExport.Builder.PopulateMembers` | blackbox_recorder.py:2896-2939 | without a stop: interface snapshot, settings, the five diagnostics in their order and the crash snapshots are each in the archive or have a gap; settings and environment were read or have one; a truncated interface snapshot has one |
| `BundleExport.Builder.Populate` | blackbox_recorder.py:2896-2944 | the same with the manifest as the last member; at most 16 MiB of ZIP input, 32 members and 18 MiB read, whenever it is cut short; a member cut short in a finished archive has a gap on record |
| `BundleExport.Builder.WriteAndPublish` | blackbox_recorder.py:2961-2983 | published exactly when the link step happened, for the owned file as checked before it and with a checkpoint passed in between; published means the archive is complete; success implies published and closed |
| `BundleExport.Builder.CleanUp` | blackbox_recorder.py:2984-3000 | the temporary is removed exactly while it is the owned regular file, otherwise a cleanup gap is recorded |
| `BundleExport.Build` | blackbox_recorder.py:2946-3007 | against any other actor: one own temporary, at most one link, of that file, to a free destination, and the temporary is removed in the end, or is not the owned file, or cannot be; status, published flag and gap count agree; no source is read beyond its own limit; published without a gap means every member is in, by name and order, with the bytes of sources read whole and unchanged |
| `ExportLifecycle.Window.Run` | blackbox_recorder.py:3162-3346 | over every event sequence at most one export runs, a close request always closes the door, and once closing every export that can run is in the captured tuple |
| `ExportLifecycle.Window.BeginExport` | blackbox_recorder.py:3284-3292 | the dialog opens only without an owned export, another dialog or a closing window |
| `ExportLifecycle.Window.EndExport` | blackbox_recorder.py:3293-3318 | one worker at most, none when closing began inside the dialog or the capture failed |
| `ExportLifecycle.Window.RetireBundle` | blackbox_recorder.py:3328-3342 | the owner reference is dropped only after the thread has ended and never while closing |
| `ExportLifecycle.Window.StopWorkers` | blackbox_recorder.py:3162-3217 | the first call captures readers and the owned export and asks each of them to stop; all joins share one deadline; true only if every captured thread ended, and always true if all had ended before |
| `ExportLifecycle.Window.CloseEvent` | blackbox_recorder.py:3219-3231 | the close completes only when every captured thread has ended, and then without waiting |
| `HistoryRelocation.FingerprintsCompareMeaning` | tools/build_security_patch_summary.py:188-211 | fingerprints are equal exactly when the elements are equal once links are compared by target |
| `HistoryRelocation.FingerprintedExactly` | tools/build_security_patch_summary.py:188-211 | a block has a fingerprint exactly when it is a paragraph or a table, no element in it is of an unsupported kind, and its only relationship attributes are external hyperlinks of hyperlink elements |
| `HistoryRelocation.ProjectionSurvivesGrowth` | tools/build_security_patch_summary.py:195-210 | a fingerprint does not change while ids keep their meaning |
| `HistoryRelocation.Document.Relocate` | tools/build_security_patch_summary.py:216-222 | the renamed copy has an equal projection in the destination table, in which every old id keeps its meaning |
| `HistoryRelocation.Document.AppendHistoryBlock` | tools/build_security_patch_summary.py:214-225 | succeeds exactly for blocks with a fingerprint; the copy stands before the last element with an equal one, and all earlier blocks keep place and fingerprint |
| `HistoryRelocation.Document.AppendHistory` | tools/build_security_patch_summary.py:214-225 | a sequence of appends keeps order and the fingerprint of every block already appended |
| `ReleaseVersion.SequenceOrdersVersions` | tools/build_release_authorization.py:128-135 | the sequence is below 2^64, orders versions as their zero-padded parts do, and is equal only for equal parts |
| `ReleaseVersion.ParsesExactly` | tools/build_release_authorization.py:128-134 | accepted are exactly three or four dotted decimal parts within 16 bits, and they are read as those numbers |
| `ReleaseVersion.PrintingKeepsTheSequence` | tools/build_msix_package.py:46-55 | printer and packer accept the same versions; printing keeps the sequence and is idempotent |
| `ReleaseVersion.SameSequenceSameText` | tools/build_msix_package.py:46-55 | equal sequences exactly when equal printed text |
| `ReleaseVersion.OrFields` | tools/build_release_authorization.py:135 | a 16-bit field or-ed in under shifted words stands beside them: no field touches another |
| `ReleaseVersion.OrOfDisjoint` | tools/build_release_authorization.py:135 | or of a shifted word and bits below the shift is their sum |
| `Base64Url.StrippedPaddingIsRestored` | tools/build_release_authorization.py:152-167 | for every byte length, restoring the stripped padding gives the padded form |
| `Base64Url.PublicTextIsDecoded` | tools/build_release_authorization.py:152-167 | printed bytes decode to themselves at their own length and at no other |
| `Base64Url.PublicTextIsInjective` | tools/build_release_authorization.py:166-167 | the text determines the bytes |
| `Base64Url.GroupOf` | tools/build_release_authorization.py:166-167 | bytes made of the bits of two to four sextets, in order, print as just these sextets, the unused bits of the last one being zero |
| `Base64Url.SymbolsInOrder` | tools/build_release_authorization.py:166-167 | in the URL-safe alphabet of section 5 of RFC 4648 |
| `Base64Url.PrintedTexts` | tools/build_release_authorization.py:166-167 | the printed texts are exactly those of URL-safe characters without unused bits and without one character left over |
| `Base64Url.PrintedExactlyWhenTidy` | tools/build_release_authorization.py:152-167 | of all texts read as some bytes exactly the tidy one is what the bytes print as |
| `Base64Url.EncodeInvertsDecode` | tools/build_release_authorization.py:152-167 | encoding inverts decoding on every tidy text, which is decoded unless one character is left over |
| `Base64Url.DecodingIsNotInjective` | tools/build_release_authorization.py:152-163 | texts that are not tidy are read all the same: sixteen of them as one zero byte |
| `Base64Url.UntidyTextsAreRead` | tools/build_release_authorization.py:152-163 | so are texts with padding signs after whole groups or in the standard alphabet |
| `ReleaseAuthority.LoadRootPolicy` | tools/build_release_authorization.py:170-220 | loads exactly the protected, canonical policy that enrolls two witnesses, sorted, with valid keys of different digests |
| `ReleaseAuthority.PolicyExactly` | tools/build_release_authorization.py:170-220 | such a policy says exactly this: digest, canonical form, schema, product, a version in 31 bits, threshold 2, two sorted valid signers, two 32-byte keys of different digests |
| `ReleaseAuthority.SignerExactly` | tools/build_release_authorization.py:47 | a signer is 3 to 192 characters, the first a letter or digit, the others of those and six signs |
| `ReleaseAuthority.WitnessesDiffer` | tools/build_release_authorization.py:199-219 | the two enrolled witnesses have different names and different 32-byte keys |
| `ReleaseAuthority.Finalize` | tools/build_release_authorization.py:449-500 | succeeds exactly at the threshold: as many valid, distinct responses over this statement as witnesses; the outputs list each witness's signature in policy order |
| `ReleaseAuthority.EveryWitnessSigned` | tools/build_release_authorization.py:487-488 | pigeonhole: at the threshold every enrolled witness has signed |
| `ReleaseAuthority.FinalizeReleaseAuthorization` | tools/build_release_authorization.py:440-500 | from policy file and responses: succeeds exactly when the file is the protected policy and the responses reach its threshold |
| `ReleaseAuthority.AuthorizedExactly` | tools/build_release_authorization.py:440-488 | authorised is exactly the protected policy with two responses, one signed by each witness over this statement, in either order |
| `ReleaseAuthority.OutputsExactly` | tools/build_release_authorization.py:489-500 | what is written: each witness's own signature text in policy order, and both public keys |
| `ReleaseAuthority.AuthorizedByTwoKeys` | tools/build_release_authorization.py:440-500 | success means two responses, one verifying over this statement under each of the two enrolled keys, which differ, as do their signers |
| `ReleaseAuthority.TwoKeysAuthorize` | tools/build_release_authorization.py:440-488 | and two such responses to a protected policy always succeed, in either order |
| `ReleaseAuthority.LoadedPolicyIsWellFormed` | tools/build_release_authorization.py:199-220 | a loaded policy has two distinct signers and a key for exactly each of them |
| `ReleaseAuthority.ResponseOrderIsIrrelevant` | tools/build_release_authorization.py:490-499 | permuted responses give equal outputs |
| `ReleaseAuthority.ThresholdIgnoresOrder` | tools/build_release_authorization.py:455-488 | success does not depend on which of two responses comes first |
| `ReleaseAuthority.SignReleaseStatement` | tools/build_release_authorization.py:402-437 | signs exactly with a 32-byte seed whose public key is the enrolled one |
| `ReleaseAuthority.HonestResponsesFinalize` | tools/build_release_authorization.py:402-488 | what two honest witnesses sign always reaches the threshold, in either order |
| `HeartbeatComparison.SuiteHealthWorker.ObserveBus` | blackbox_recorder.py:911-967 | verdict, timestamp, freshness, note and warnings of one poll, and exactly what is remembered or dropped after it |
| `HeartbeatComparison.AcceptedExactly` | blackbox_recorder.py:911-947 | a heartbeat is accepted exactly when it is this process's by pid and birth, dated within the grace, not overdue, and has five natural counters of an inline bus; the previous one is forgotten exactly when it is another's or overdue |
| `HeartbeatComparison.AcceptedVerdicts` | blackbox_recorder.py:925-957 | an accepted heartbeat is observed, active or quiet, a late one stale, any other unknown |
| `HeartbeatComparison.ReportedExactlyWhenWitnessed` | blackbox_recorder.py:948-957 | over every sequence of polls ACTIVE (QUIET) is reported exactly when the heartbeat now read was first accepted after an earlier-dated one of the same process, no counter went back, and the counters differ (do not) |
| `HeartbeatComparison.ActiveNeedsTwoHeartbeats` | blackbox_recorder.py:948-957 | ACTIVE needs two accepted heartbeats of one process in strictly increasing time with counters that went forward |
| `HeartbeatComparison.RereadingRepeatsTheVerdict` | blackbox_recorder.py:951-953 | reading one heartbeat again repeats its verdict, whatever unusable snapshots came between |
| `HeartbeatComparison.ForgettingStartsAfresh` | blackbox_recorder.py:915-951 | after a stale, mismatched or absent snapshot the next accepted heartbeat is only OBSERVED |

## Left out

- Name canonicalisation, wheel metadata, marker and specifier parsing: names and extras arrive canonical, and a marker is a predicate of the one extra that varies.
- Text of error messages, labels, hints and headers: verdicts carry the kind of fault and the names; exception names at the end of gap reasons are dropped.
- Cryptographic strength of SHA-256, HMAC and Ed25519: nothing is claimed about forging a digest, proof or signature.
- JSON, ZIP and DOCX parsing and writing: documents arrive as trees or records; exact key sets of JSON objects are taken as checked; XML comments and processing instructions are not part of this model.
- Windows handles, mapped memory, ACLs, firewall commands and process termination: `isolateNetwork` and `killTarget` are flags, launching is an event.
- The watchdog's own heartbeat goroutine with its jitter, its logging, `chillAgentArgs` and removal of the stop file.
- Heartbeats of `frz/angerona_watchdog.go:201-206` are read as timestamp and flags; the byte offsets of that older layout are not part of this model.
- Races between a path check and the operation after it: each such pair is one step, except before publication.
- BundleExport.World: it stands for the other actors; that os.link fails on an existing destination is its law, not a result.
- BundleExport.Builder.Populate: the JSON of the interface snapshot, of the sanitized settings and of the manifest are arbitrary bytes, so the settings allowlist and the environment digest are not part of this model.
- BundleExport.Builder.WriteAndPublish: flush, fsync and the size limit of the compressed archive are one step that may fail; which file other actors put at the temporary path between the identity check and the link is left open, as in the source.
- BundleCapture.WholeExportIsBounded: `document_tail`, which draws on the same character budget, is left out, and no bound on the JSON form is claimed, because the source promises none.
- LogTail.NoMarkerIsLost: markers are literal and newline-free, without the word boundaries of the patterns in the source; a marker may be reported again at the next poll because it stays in the context.
- ReportWalk.Walk: the date pattern and calendar are one uninterpreted test; JSON numbers are reals.
- HeartbeatComparison.SuiteHealthWorker.ObserveBus: floating-point rounding; times are reals.
- InspectorWake.NoLostWakeUp: no fairness is assumed; promptness counts the worker's own steps and says nothing about time.
- ExportLifecycle.Window.StopWorkers: threads of child views and of the debug panel are left out, a timed join takes no longer than its bound, and negative timeouts, which the source raises to zero, do not occur.
- ExportLifecycle.Window.EndExport: message boxes shown after a worker has retired, which run an event loop of their own, and the cancel button are left out.
- ExportLifecycle.Window.CloseEvent: the toolkit accepts every close that the window does not hold back.
- HistoryRelocation.Document.Relocate: the copied tree is rebuilt as a value instead of changed in place, so aliasing of XML nodes is not captured; which free id the library picks is left open.
- HistoryRelocation.Document.AppendHistoryBlock: the body is never empty, as in every document with section properties.
- Selection of retained history (`_maintenance_history`) and the report's layout: text matching only.
- ReleaseVersion.SequenceOrdersVersions: the interpreter's limit on the length of decimal integers is left out.
- ReleaseAuthority.Finalize: `load_prepared_statement`, the payload manifest and atomic file writes are left out; a statement is its digest and canonical bytes.
- ReleaseAuthority.ThresholdIgnoresOrder: stated for two responses, because a loaded policy always enrolls exactly two witnesses.
- Qt widgets, charts, dialogs, benchmarks, demo tools, native system calls and the recovery and update tools.
