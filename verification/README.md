# Portainer server: a verified model

This project models the parts of the Portainer server (the Go code under `api/` and `pkg/edge/`)
in which a mistake would be hardest to see by reading one function, and proves what they promise:
concurrent state machines over every interleaving, a saga with compensations under every failure,
chunked encryption, text codecs, a cache with the exact condition under which it is noticed, and a
migration that may be interrupted anywhere.

`dafny verify dfyconfig.toml` checks the whole project. There is one module a file.

* **Operations on service instances.** `OperationLock` is the per-instance lock, as a step system of
  any number of callers and operation goroutines that take the service mutex around each use of the
  `running` map. `SequentialOperation` is the fail-fast runner, `ParallelOperation` the runner whose
  goroutines share one record under a mutex, `ScheduledBuild` the runner that pulls images, waits
  and then deploys, and `ScheduledBuildRuns` what its runs come to. `OperationRecord` holds the record they share and the two status computations.
  What the operation does on a target is an arbitrary outcome.
* **Recreating a container.** `ContainerRecreate` runs the nine daemon calls and the two deferred
  compensations against a model of the Docker daemon in which every call may fail without effect.
  The flag `healthy` is the assumption that a forward call takes effect whenever the daemon allows
  it, and `reliable` the same of a compensating one; without them less is promised, and that is
  stated too.
* **The worker pool.** `WorkerPool` is the two buffered channels, the wait group and the workers as a
  step system under an arbitrary schedule.
* **Encrypted archives.** `Nonce` is the counter of NIST SP 800-38D, section 8.2.1; `Archive` is the
  framing in both modes and the dispatch on the header, for streams that may fail; `ArchiveLayout` says
  where everything is in a file and which files are accepted, in numbers; `ArchiveFragments` is about
  archives that are cut short or rearranged. The ciphers are function parameters of which
  only `open(seal(p)) = p` and the length of a sealed block are assumed, and, in one place that says
  so, that a block does not open under another nonce.
* **Text.** `Base64` (sections 3.2 and 4 of RFC 4648) and `EdgeKey`; `Utf8Repair` (section 4 of
  RFC 3629) and `Utf8Text`, which reads a byte string as runes and writes them back; `ExecCommand`
  (single quotes of IEEE Std 1003.1, Shell Command Language, section 2.2.2) on runes, and `ExecBytes`,
  what that means for the bytes of a command; and `StreamReassembly`.
* **Tables and caches.** `LruCache` and `ApiKeys`, with `ApiKeyEffects` on what a lookup answers after
  each operation and `ApiKeyHistory` on when it is outdated, and `TunnelTable`.
* **Migration.** `FileCopy` is the chunked copy on which a backup rests, with every call allowed to
  fail and the process allowed to die between any two of them; `Migration` is the protocol above it.
  The flags `healthy` and `restoring` assume that nothing of that happens on the way forward and
  while restoring.
* **Manifests.** `ManifestLabels` labels every resource of a decoded Kubernetes document. It keeps
  apart the two kinds of map that the source's type assertions keep apart.

`Wrappers`, `Bytes`, `Tally` and `Ranges` are small helpers.

A step system has a state, a predicate `Enabled`, a function `Apply` and a function `Run` that
follows a schedule; statements about `Run` are about every schedule of every length. A method whose
source mutates state is a method here, and is proved against a function of the old state. Time,
randomness, the network and the outcome of foreign calls are parameters, or `*` where the caller
cannot influence them.

## Where the code is not what one would expect

In these places the code differs from its own documentation, or from what a caller may take for
granted. The model follows the code, says exactly when the two agree, and mostly gives an input on which they
do not.

* An instance's status `Failed` is documented (api/portainer.go:2948) as "at least one failed and
  none running", but is computed only when all targets failed: `OperationRecord.FailedAsDocumented`,
  `OperationRecord.FailedBesideStopped`.
* An operation's status `Failed` is documented (api/portainer.go:2975) as "all targets failed". A
  fail-fast operation also reports it when the first of several targets fails and the others are
  skipped: `SequentialOperation.FailureOfAllTargets`, `SequentialOperation.SecondTargetIsSkipped`.
* The port range is described as 49152 to 65535 (api/chisel/tunnel.go:194), but the last port is
  never drawn, so there is room for 16383 tunnels: `TunnelTable.FreePortIffRoom`,
  `TunnelTable.FullTableNeverOpens`.
* A container that is on no network is recreated on the default bridge, so the recreated container is
  on the original's networks iff the original had any: `ContainerRecreate.SameNetworks`,
  `ContainerRecreate.LoneContainerIsBridged`.
* An input stream that fails exactly between two blocks is encrypted as if it ended there, and a
  failure at any other point is reported: `Archive.EncryptBlocks`, `Archive.BreakUnnoticed`.
* So is it for decrypting: an archive that is cut after whole blocks, or breaks off there, is
  decrypted without an error to what those blocks hold. `Archive.DecryptBlocks`,
  `Archive.DecryptFipsBlocks`, `ArchiveFragments.GcmCutAtBlock`, `ArchiveFragments.FipsCutAtBlock`.
* The places of the blocks are part of what is sealed in GCM mode, by way of the counter, but not in
  FIPS mode: `ArchiveFragments.GcmOpensInOrder`, `ArchiveFragments.FipsOpensInAnyOrder`.
* Repairing a terminal stream read by read loses a character that straddles two reads, and nothing
  else: `Utf8Repair.RepairOfReads`, `Utf8Repair.OneCharacterIsLost`,
  `Utf8Repair.TwoByteCharacterIsLost`.
* Splitting a command does not conserve bytes that begin no character; each becomes the three bytes of
  U+FFFD: `ExecBytes.TokensConserveBytes`, `ExecBytes.JoinThenTokens`, `ExecBytes.StrayByteGrows`.
* Tool calls whose indices leave a gap are not all returned: `StreamReassembly.ListedIsComplete`,
  `StreamReassembly.LateIndexIsNotListed`.
* A tunnel that is used while its closing snapshot is taken is closed all the same:
  `TunnelTable.ClosesActiveIffUsed`, `TunnelTable.ActiveTunnelCanBeClosed`.
* A password change (api/http/handler/users/user_update_password.go:94) saves the user without
  invalidating their cached entries, so a lookup goes on finding the user as they were:
  `ApiKeys.CacheIsInvisible`, `ApiKeyHistory.LookupIsAsRead`, `ApiKeyHistory.PasswordChangeIsMissed`.
* A key update whose repository write fails leaves the new key in the cache:
  `ApiKeys.FailedUpdate`, `ApiKeys.FailedUpdateIsFound`.
* A manifest cannot be labelled twice in memory: labelling leaves a map of strings where the type
  assertion of the second time wants a map of anything. It can once it has been written and read back.
  `ManifestLabels.TwiceIffNoResource`, `ManifestLabels.PodCannotBeLabelledTwice`,
  `ManifestLabels.LabellingIsIdempotent`.

## Model

| member | source | states |
|---|---|---|
| WorkerPool.SendsNeverBlock | api/concurrent/concurrent.go:97-126 | in every reachable state, a worker or the caller that has come to a send can send: the channel holds fewer elements than there are tasks, and is not closed |
| WorkerPool.NeverStuck | api/concurrent/concurrent.go:94-148 | no reachable state is a deadlock: until the call has returned some step can be taken |
| WorkerPool.LimitIsKept | api/concurrent/concurrent.go:94-126 | under every schedule a positive limit bounds the workers and the tasks they have in hand; after the spawning there are just that many workers, and without a limit one for each task |
| WorkerPool.LimitIsReached | api/concurrent/concurrent.go:94-126 | every number of tasks within the limit can be executing at once |
| WorkerPool.ReturnsWhatTheTasksReturned | api/concurrent/concurrent.go:101-147 | on return each task was run exactly once; if no task failed the answer lists what the tasks returned, each once, in some order, and otherwise it is the error of some failed task |
| WorkerPool.RunsAreBounded | api/concurrent/concurrent.go:94-148 | a measure falls on every step, so no schedule exceeds two steps a worker, five a task and four |
| WorkerPool.RunKeepsInv | api/concurrent/concurrent.go:94-148 | in every reachable state a task handed over is in exactly one place and was run as often as it is past its execution, and the channels, the wait group and the caller agree on the phase |
| WorkerPool.StepKeepsInv | api/concurrent/concurrent.go:94-148 | each single step keeps that invariant |
| WorkerPool.AllFinished | api/concurrent/concurrent.go:130-137 | once the wait group has let the caller through, queued and collected results together are all tasks, once each |
| OperationLock.RunningMeansOneHolder | api/serviceinstance/service.go:580-636 | in every interleaving an instance is marked running iff a caller or goroutine holds it, two holders hold different instances, and at most one thread is in a critical section |
| OperationLock.EntryIsDecidedByOwnInstance | api/serviceinstance/service.go:580-587 | over every schedule, a caller that has come to the check is turned away iff some thread holds the same instance, and otherwise becomes its holder; no other holder is affected |
| OperationLock.AcceptedIffAllCallsSucceed | api/serviceinstance/service.go:589-630 | over every schedule, a caller is accepted iff its three calls have all succeeded, then an operation has been started under its acquisition, and a caller releases by itself iff one of them has failed |
| OperationLock.ThreadsFollowTheirCalls | api/serviceinstance/service.go:580-643 | where each thread is follows from what its calls have returned: callers go through three, an operation through one, whatever that returns |
| OperationLock.CallersAreThoseWhoArrived | api/serviceinstance/service.go:580-630 | the callers are those that have called, in order, each for its own instance |
| OperationLock.CallCanBeMade | api/serviceinstance/service.go:580-587 | whenever the mutex is free a new call can be made for any instance, and is let in or turned away at once |
| OperationLock.FirstCallCanBeAccepted | api/serviceinstance/service.go:580-630 | the first call for any instance can be accepted |
| OperationLock.ReleasedOnce | api/serviceinstance/service.go:588-636 | over every interleaving and every early error return, each acquisition is released at most once, and is unreleased iff someone still works under it |
| OperationLock.QuietMeansReleased | api/serviceinstance/service.go:580-643 | when nothing but a new call can happen, no instance is marked running, the mutex is free, every acquisition was released once and every thread is done |
| OperationLock.RunsAreBounded | api/serviceinstance/service.go:580-643 | each caller accounts for at most eleven steps, so every run with finitely many callers comes to rest |
| OperationLock.RunKeepsInv | api/serviceinstance/service.go:580-636 | mutual exclusion, unique holders and the absence of leaks hold in every reachable state |
| OperationRecord.Finalize | api/serviceinstance/service.go:721-740 | the counting loop gives success iff nothing failed, partial success iff something failed and something succeeded, failure otherwise, and marks the record finished |
| OperationRecord.AggregateStatus | api/serviceinstance/service.go:180-219 | the counting loop computes the aggregated status |
| OperationRecord.Aggregated | api/serviceinstance/service.go:180-219 | unknown iff there are no targets, deploying iff some target is, and running, stopped or failed iff all targets are |
| OperationRecord.FailedAsDocumented | api/portainer.go:2941-2949 | the computed failure is the documented one iff no failed target is beside an inactive or deploying one while none is running |
| OperationRecord.FailedBesideStopped | api/portainer.go:2941-2949 | a failed and a stopped target are documented as failed but computed as partial |
| SequentialOperation.Runner.Run | api/serviceinstance/service.go:656-676 | the exact sequence of stored snapshots, the targets run, in order, and the final record, as functions of the outcomes |
| SequentialOperation.Runner.Try | api/serviceinstance/service.go:663-675 | one target's turn stores it running, runs it, and stores what it came to |
| SequentialOperation.SnapshotShape | api/serviceinstance/service.go:656-676 | every stored snapshot is successes, one target running or just reported with its error, then untouched targets, each with its environment |
| SequentialOperation.ResultsShape | api/serviceinstance/service.go:656-676 | the final results are successes, the first failure with its error, then skipped targets |
| SequentialOperation.StatusFromFirstFailure | api/serviceinstance/service.go:656-740 | a fail-fast run succeeds iff nothing fails, reports failure iff the first target fails, and partial success otherwise |
| SequentialOperation.FailureOfAllTargets | api/portainer.go:2974-2976 | a fail-fast run reports failure exactly when all targets failed iff there is at most one target or the first succeeds |
| SequentialOperation.SecondTargetIsSkipped | api/serviceinstance/service.go:656-740 | two targets, of which the first fails: failure is reported though the second was skipped |
| ParallelOperation.ResultIndependentOfSchedule | api/serviceinstance/service.go:682-747 | whatever the interleaving, the last snapshot stored is the one record the outcomes determine |
| ParallelOperation.TargetsOnlyAdvance | api/serviceinstance/service.go:690-708 | between any two stored snapshots of any run a target moves only from pending to running to its own result, and then stays there |
| ParallelOperation.StatusClassifiesOutcomes | api/serviceinstance/service.go:721-740 | the final status is success iff all succeed, failure iff all of at least one fail, and partial success iff both occur |
| ParallelOperation.RunnersAgreeOnSuccess | api/serviceinstance/service.go:642-747 | both runners report success on the same outcomes; they differ on failure exactly when the first target fails and some other would succeed |
| ParallelOperation.NeverStuck | api/serviceinstance/service.go:682-713 | no interleaving of the two critical sections deadlocks |
| ParallelOperation.RunLength | api/serviceinstance/service.go:682-713 | every run takes six steps a target and two of its own, and has returned exactly then |
| ParallelOperation.RecordIsStored | api/serviceinstance/service.go:690-719 | in every reachable state what was stored last is the record as it is, and there are two snapshots for each target that has reported, one for each that is at work, and the final one |
| ParallelOperation.AllAtOnce | api/serviceinstance/service.go:682-710 | all targets can be operated on at once |
| ParallelOperation.RunKeepsInv | api/serviceinstance/service.go:682-713 | in every reachable state each result is at the stage its goroutine has reached and stored snapshots form a chain |
| ScheduledBuild.Runner.Run | api/serviceinstance/service.go:385-458 | everything a run does, in order, and the build it ends with, as functions of what the outside world answers; the cancel function is always unregistered |
| ScheduledBuild.Runner.PullAll | api/serviceinstance/service.go:397-420 | the loop stops where it sees the context cancelled, and has then done one turn for each target before |
| ScheduledBuild.Runner.PullTarget | api/serviceinstance/service.go:408-418 | one target's turn: stored as pulling, pulled, stored with its outcome |
| ScheduledBuild.Runner.SkipTarget | api/serviceinstance/service.go:402-406 | the turn of a target behind a failed one: only stored, as skipped |
| ScheduledBuild.Runner.Deploy | api/serviceinstance/service.go:426-451 | the ready build is stored, then the wait, the update of the instance and the request follow each other, and what each of them comes to decides how far it goes and how the build ends |
| ScheduledBuild.Runner.Finish | api/serviceinstance/service.go:399-451 | a cancelled loop ends the run, a failed one fails the build, and a complete one goes on to the deploy |
| ScheduledBuild.Runner.MarkDeployed | api/serviceinstance/service.go:445-451 | every target of a build whose deploy was accepted is marked deployed, and that is stored |
| ScheduledBuild.Runner.Fail | api/serviceinstance/service.go:466-479 | exactly the waiting and pulling targets become skipped, the others keep their results, and the failure is stored |
| ScheduledBuild.Runner.WaitForDeployTime | api/serviceinstance/service.go:516-531 | with a timer that does not fire early the wait never ends before the deploy time, and it gives up iff it is cancelled while there is time left |
| ScheduledBuildRuns.DeployIffReady | api/serviceinstance/service.go:391-443 | a deploy is requested iff the compose file was understood, no pull failed, no cancellation was seen, the time came and the instance could be updated |
| ScheduledBuildRuns.DeployIsRequestedInItsPlace | api/serviceinstance/service.go:426-451 | it is requested once, right after the ready build was stored and the instance updated, with nothing but the last snapshot behind it, and not before its time unless the timer fires early |
| ScheduledBuildRuns.PullsStopAtTheFirstFailure | api/serviceinstance/service.go:397-420 | the targets pulled are the first ones, in order, up to and including the first that fails or up to the cancellation |
| ScheduledBuildRuns.TurnIs | api/serviceinstance/service.go:402-418 | a target that is pulled is stored as pulling before and with its outcome after, and the other targets are not touched |
| ScheduledBuildRuns.ReachedIs | api/serviceinstance/service.go:397-420 | the results on the way: ready before the first failure, failed with its error, skipped behind it, and untouched beyond |
| ScheduledBuildRuns.EndIsStored | api/serviceinstance/service.go:385-479 | what is stored last is the build as the run leaves it |
| ScheduledBuildRuns.UnreadableBuildFails | api/serviceinstance/service.go:391-395 | a compose file that is not understood fails the build with that error, and every waiting target is skipped |
| ScheduledBuildRuns.CancelledBuildStops | api/serviceinstance/service.go:398-401 | a build cancelled while pulling is left as it is, with outcomes only for the targets it has come to |
| ScheduledBuildRuns.FailedBuildLeavesNobodyWaiting | api/serviceinstance/service.go:397-479 | an uncancelled build whose pull fails ends failed and finished, with targets ready, then failed with its error, then skipped, whatever they were before |
| ScheduledBuildRuns.PulledBuildIsDeployed | api/serviceinstance/service.go:426-451 | a completely pulled build ends waiting when it is cancelled before its time, failed with the error when the update or the request fails, and otherwise with every target deployed |
| ContainerRecreate.Recreate | api/docker/container.go:73-245 | before the stop an error changes nothing; after it, at every point, reliable compensations leave the original running under its name with all its endpoints and nothing else changed; a recreated container runs under that name; other containers never change; and with healthy calls the original is replaced and removed iff nothing in the daemon's state obstructs it |
| ContainerRecreate.Replace | api/docker/container.go:147-245 | the same for everything after the stop: an error leaves no container but the original touched, and none left over |
| ContainerRecreate.PutAside | api/docker/container.go:147-170 | the original is renamed and off every network; that succeeds iff the name is free and its networks are distinct, when calls are healthy |
| ContainerRecreate.Create | api/docker/container.go:173-231 | creation, connection and start add exactly the new container, or, with the compensation, nothing |
| ContainerRecreate.Substitute | api/docker/container.go:173-245 | after the creation the original is removed, and whether the last inspection succeeds only decides what is reported |
| ContainerRecreate.Attach | api/docker/container.go:209-231 | the new container ends running and on exactly the expected networks, or only it was touched |
| ContainerRecreate.Restore | api/docker/container.go:124-144 | with reliable calls the renaming, reconnecting and starting give the original back from every point it may have been left at |
| ContainerRecreate.Reconnect | api/docker/container.go:134-138 | in every order, and whichever networks it was still on, the original ends on exactly its networks |
| ContainerRecreate.Discard | api/docker/container.go:190-204 | with reliable calls the new container is gone, even when it was already running |
| ContainerRecreate.DisconnectAll | api/docker/container.go:157-170 | the original leaves every network, and the first one visited is remembered; on an error only networks were left |
| ContainerRecreate.ConnectOthers | api/docker/container.go:212-225 | the new container joins every network but the one it was created on, with the original's endpoints |
| ContainerRecreate.SuccessMeans | api/docker/container.go:147-245 | after a success the new container runs the new image under the original's name, the original is gone or stopped and off every network under its other name, and no other container appears or disappears |
| ContainerRecreate.SameNetworks | api/docker/container.go:155-225 | the recreated container is on the same networks iff the original was on any; every endpoint is the original one, but that an old API clears the MAC address, and only that, of the endpoint it is created with |
| ContainerRecreate.LoneContainerIsBridged | api/docker/container.go:173-178 | a container on no network is recreated on the default bridge |
| ContainerRecreate.NameIsFree | api/docker/container.go:124-132 | the renaming back is refused only when the container never lost its name |
| Nonce.Counter.NewRandom | api/crypto/nonce.go:22-36 | a random first byte and zeros, or nothing when the size leaves no room for a counter |
| Nonce.Counter.Increment | api/crypto/nonce.go:47-62 | the carry loop adds one to the big-endian value in place, and fails exactly on the largest value |
| Nonce.Successor | api/crypto/nonce.go:47-62 | the next value is one more, and there is none exactly when all bytes are 255 |
| Nonce.Carried | api/crypto/nonce.go:49-57 | stopping the carry at the first byte below 255 is the big-endian successor |
| Nonce.AdvanceAdds | api/crypto/nonce.go:47-62 | k increments succeed iff the value stays within its width, and then add k |
| Nonce.NoncesNeverRepeat | api/crypto/nonce.go:47-62 | the values after different numbers of increments differ |
| Nonce.RoomFromRandom | api/crypto/nonce.go:18-36 | from every value that is generated at random the first 256^(size-1) - 1 increments succeed, and the next fails iff the random byte was 255 |
| Archive.EncryptBlocks | api/crypto/aes.go:145-173 | the loop writes the blocks sealed under successive nonces, and fails iff the nonce overflows or the input fails within a block |
| Archive.BreakUnnoticed | api/crypto/aes.go:150-158 | an input that fails after one whole block is encrypted without an error |
| Archive.DecryptBlocks | api/crypto/aes.go:213-246 | the loop opens what is there block by block, and fails iff a block does not open, the nonce overflows, or the input fails within a sealed block |
| Archive.EncryptFipsBlocks | api/crypto/aes.go:276-305 | the loop writes the sealed blocks, and fails iff the input breaks off within a block |
| Archive.DecryptFipsBlocks | api/crypto/aes.go:337-371 | the loop opens what is there block by block, and fails iff a block does not open or the input fails within a sealed block |
| Archive.EncryptGcm | api/crypto/aes.go:108-173 | header, salt and first nonce in front of the sealed blocks |
| Archive.DecryptGcm | api/crypto/aes.go:176-246 | the fields are read back from their places; a file too short for them, or without the header, is rejected, whether its stream ends or fails |
| Archive.EncryptFips | api/crypto/aes.go:250-305 | header and salt in front of the sealed blocks |
| Archive.DecryptFips | api/crypto/aes.go:309-371 | the fields are read back from their places; a file too short for them, or without the header, is rejected, whether its stream ends or fails |
| Archive.Decrypt | api/crypto/aes.go:64-105 | for every stream the header picks the routine, and a mode that does not match is refused |
| Archive.BlocksRoundTrip | api/crypto/aes.go:145-246 | opening sealed blocks gives the plaintext back, for every length, empty and exact multiples among them |
| Archive.FipsBlocksRoundTrip | api/crypto/aes.go:276-371 | the same in FIPS mode, whatever nonces are chosen |
| Archive.SealingNeedsRoom | api/crypto/aes.go:150-170 | encryption succeeds iff the nonce has at least as many increments left as there are blocks |
| Archive.GcmRoundTrip | api/crypto/aes.go:64-246 | every plaintext of fewer than 256^11 blocks is encrypted, decrypts to itself, and is refused in FIPS mode |
| Archive.FipsRoundTrip | api/crypto/aes.go:64-371 | every plaintext encrypted in FIPS mode decrypts to itself, and is refused outside it |
| Archive.HeadersDiffer | api/crypto/aes.go:400-410 | no file carries both headers |
| Archive.BlockNonces | api/crypto/aes.go:150-170 | block i is sealed under the first nonce advanced i times |
| Archive.DistinctNonces | api/crypto/aes.go:150-170 | no two blocks of one file are sealed under the same nonce |
| Archive.WholeBlocksAreMultiples | api/crypto/aes.go:150-158 | the failures that are not noticed are those after a multiple of the block size |
| ArchiveLayout.GcmHead | api/crypto/aes.go:108-173 | an archive is ten bytes of header, sixteen of salt, the random byte, eleven zeros and the sealed blocks, and nothing else |
| ArchiveLayout.GcmBlockAt | api/crypto/aes.go:145-170 | block j, a mebibyte or what is left, is at its offset, sealed under the random byte times 256^11 plus j |
| ArchiveLayout.FipsHead | api/crypto/aes.go:250-305 | in FIPS mode: fifteen bytes of header, thirty-two of salt and the sealed blocks |
| ArchiveLayout.FipsBlockAt | api/crypto/aes.go:276-302 | block j, sixteen mebibytes or what is left, is at its offset |
| ArchiveLayout.GcmAccepted | api/crypto/aes.go:176-246 | a file is decrypted iff it has the whole head, does not break off within a block, and every block opens under the key and the nonce that the head gives |
| ArchiveLayout.FipsAccepted | api/crypto/aes.go:309-371 | the same in FIPS mode, where the nonces are part of the blocks |
| ArchiveLayout.Dispatch | api/crypto/aes.go:64-105 | when each answer is given: fifteen bytes are needed, the header of the current mode is read, that of the other refused, and anything else is a legacy file |
| ArchiveLayout.HeaderIsOfTheMode | api/crypto/aes.go:400-410 | a header is recognized iff it is that of the current mode, and of a file of fifteen bytes or more iff the file would be read in that mode |
| ArchiveFragments.GcmCutAtBlock | api/crypto/aes.go:64-246 | a file cut after whole blocks, whether its stream ends or fails there, is a beginning of the whole file and is decrypted to what the blocks hold |
| ArchiveFragments.FipsCutAtBlock | api/crypto/aes.go:64-371 | the same in FIPS mode |
| ArchiveFragments.FipsOpensInAnyOrder | api/crypto/aes.go:340-368 | full sealed blocks, rearranged, left out or repeated in any way, are opened to the plaintext rearranged alike |
| ArchiveFragments.GcmOpensInOrder | api/crypto/aes.go:217-243 | if blocks do not open under another nonce, rearranged blocks are opened iff they are the first ones in their order |
| ArchiveFragments.FileIsPicked | api/crypto/aes.go:279-302 | what is written for full blocks is those blocks sealed at their own places |
| Base64.RoundTrip | api/chisel/key.go:14-24 | decoding undoes encoding on every byte string |
| Base64.DigitsRoundTrip | api/chisel/key.go:14-24 | regrouping four digits undoes cutting three bytes, with one or two left over too |
| Base64.SymbolIsStandard | api/chisel/key.go:23 | the alphabet is the standard one |
| Base64.GroupIsBigEndian | api/chisel/key.go:23 | four digits are the three bytes, most significant first |
| Base64.EncodedLength | api/chisel/key.go:23 | four symbols for three bytes, and no padding |
| Base64.DecodeFails | pkg/edge/utils.go:14-17 | decoding fails iff there is a byte outside the alphabet, line breaks apart, or a single symbol is left over |
| EdgeKey.SplitJoin | api/chisel/key.go:14-24 | splitting a joined list gives the list back iff no field has the separator, and else gives another number of fields |
| EdgeKey.JoinUndoesSplit | pkg/edge/utils.go:19 | joining undoes splitting, on every text |
| EdgeKey.KeyText | api/chisel/key.go:14-24 | the text of a key: URL, host and port, fingerprint and identifier, in this order and with these separators |
| EdgeKey.AtoiUndoesItoa | pkg/edge/utils.go:26-46 | every 64-bit integer is read back from its decimal form |
| EdgeKey.DecimalForm | api/chisel/key.go:19 | an identifier is written in its shortest decimal form |
| EdgeKey.IntegersAccepted | pkg/edge/utils.go:25-47 | what is read as an integer: a sign or none, then one or more digits and nothing else, for a value of 64 bits |
| EdgeKey.ParsersUndoPrinter | pkg/edge/utils.go:13-48 | on a generated key the parsers return its URL and identifier, or both reject it, and they reject iff some field has the separator |
| EdgeKey.ParsersAgree | pkg/edge/utils.go:13-48 | the two parsers accept the same keys, generated or not |
| EdgeKey.KeysAccepted | pkg/edge/utils.go:13-48 | on a key of four fields the parsers return the first and the last, and they fail, each with its own error, iff the last is no integer |
| EdgeKey.OtherKeysAreRejected | pkg/edge/utils.go:13-48 | every other key is rejected by both |
| EdgeKey.KeysAreDistinct | api/chisel/key.go:14-24 | keys made of fields without the separator are equal only if URL and identifier are |
| ExecCommand.SplitExecCommand | api/ws/command.go:11-41 | on every byte string, well formed or not, the loop over the runes computes the tokens |
| ExecCommand.SplitCommand | api/ws/command.go:11-41 | every way of writing an argument list, with any spacing and each argument in quoted and bare pieces, splits into that list |
| ExecCommand.PairedQuotesSplit | api/ws/command.go:11-41 | every command whose quotes are paired is an argument list so written, and splits into it |
| ExecCommand.OpenQuoteIsClosed | api/ws/command.go:11-41 | a quote left open is closed by the end of the command |
| ExecCommand.JoinThenSplit | api/ws/command.go:11-41 | on runes: quoting each argument and joining with spaces is undone by splitting, for every list without single quotes |
| ExecBytes.JoinThenTokens | api/ws/command.go:11-41 | on bytes: that is undone by splitting iff every argument is well-formed text |
| ExecBytes.TokensOfJoin | api/ws/command.go:11-41 | in any case each argument comes back as it is read and written again |
| ExecCommand.SplitConserves | api/ws/command.go:11-41 | on runes: the tokens together are the command without its quotes and its unquoted spaces, in order |
| ExecBytes.TokensConserveBytes | api/ws/command.go:19-33 | on bytes: they are iff the command is well formed, and each byte that begins no character makes them two bytes longer |
| ExecBytes.StrayByteGrows | api/ws/command.go:19-33 | one such byte becomes the three bytes of U+FFFD |
| ExecBytes.TokensNormalize | api/ws/command.go:11-41 | for every byte string, well quoted and well formed or not, its tokens quoted and joined split into the same tokens |
| Utf8Text.EncodingOfRunes | api/ws/command.go:19-33 | ranging over a byte string and writing the runes gives it back iff it is well formed, and is else two bytes longer for each byte that begins no character |
| Utf8Text.RunesOfEncoding | api/ws/command.go:19-33 | runes that are written are read back |
| Utf8Text.RunesBeforeAscii | api/ws/command.go:19-33 | a string is read in two parts at every ASCII byte, such as a quote or a space |
| Utf8Repair.ValidString | api/ws/stream.go:82-101 | the short cut and the loop over the runes compute the repair |
| Utf8Repair.CollectRunes | api/ws/stream.go:84-97 | the runes kept, encoded, are the repair of the whole string |
| Utf8Repair.EncodeDecodes | api/ws/stream.go:86-97 | every Unicode scalar value is encoded as one well-formed character that stands for it |
| Utf8Repair.DecodeEncodes | api/ws/stream.go:86-97 | every well-formed character stands for a scalar value whose encoding it is |
| Utf8Repair.OrderIsKept | api/ws/stream.go:86-97 | code points in order have encodings in order, byte by byte, which together with the two rows above leaves one way to encode |
| Utf8Repair.RepairIsValid | api/ws/stream.go:82-101 | the output is always well formed |
| Utf8Repair.ValidIsRepaired | api/ws/stream.go:82-84 | the repair changes nothing iff the input is well formed, and never makes it longer |
| Utf8Repair.RepairIsIdempotent | api/ws/stream.go:82-101 | repairing twice is repairing once |
| Utf8Repair.KeepsCharacters | api/ws/stream.go:86-96 | a well-formed character is kept and the repair goes on behind it |
| Utf8Repair.KeepsReplacementCharacter | api/ws/stream.go:87-92 | a genuine U+FFFD is kept |
| Utf8Repair.RepairKeepsTheCharacters | api/ws/stream.go:82-101 | the output is the concatenation, in order, of exactly the well-formed characters of any left-to-right reading |
| Utf8Repair.EveryStringReads | api/ws/stream.go:82-101 | every byte string has such a reading |
| Utf8Repair.RepairOfReads | api/ws/stream.go:55-67 | repairing two reads apart equals repairing them together iff no character straddles them |
| Utf8Repair.OneCharacterIsLost | api/ws/stream.go:55-67 | otherwise exactly one character is lost, the one of which the first read ends with a part and the second begins with the rest; everything before and behind it is kept |
| Utf8Repair.TwoByteCharacterIsLost | api/ws/stream.go:55-67 | a character of two bytes in two reads vanishes |
| StreamReassembly.ReadStream | api/ai/llm.go:143-203 | the callback is passed the deltas that are not empty, each in its turn, and the content is all of them; the tool calls listed are those the fragments describe; there is a response iff reading did not fail |
| StreamReassembly.Accumulator.ReadLines | api/ai/llm.go:150-190 | the loop over lines accumulates exactly the choices in front of the end marker |
| StreamReassembly.Accumulator.AddChunk | api/ai/llm.go:166-189 | the loop over the choices of one chunk |
| StreamReassembly.Accumulator.AddChoice | api/ai/llm.go:166-189 | one choice adds its delta and its fragments, and passes no empty delta to the callback |
| StreamReassembly.Accumulator.AddToolCall | api/ai/llm.go:174-188 | merging a fragment keeps every call described by its own fragments: all arguments in order, the last non-empty identifier and name |
| StreamReassembly.ChoicesStopAtTheMarker | api/ai/llm.go:150-159 | nothing behind the end marker is read |
| StreamReassembly.ChoicesAppend | api/ai/llm.go:150-166 | in front of it the choices of the chunks follow each other |
| StreamReassembly.NonEmptyAppend | api/ai/llm.go:166-172 | the deltas passed on follow each other, and none is empty |
| StreamReassembly.DescribesAppend | api/ai/llm.go:181-187 | what two runs of fragments describe: the arguments of the first in front of those of the second, and the later identifier and name unless they are empty |
| StreamReassembly.List | api/ai/llm.go:196-200 | the final loop lists the calls at indices below their number |
| StreamReassembly.ListedInOrder | api/ai/llm.go:196-200 | they are listed in the order of their indices, each once |
| StreamReassembly.ListedIsComplete | api/ai/llm.go:196-200 | every call is listed iff the indices are contiguous from zero, and then each at its index |
| StreamReassembly.LateIndexIsNotListed | api/ai/llm.go:196-200 | a single call at index 1 is not listed |
| StreamReassembly.ResponseHoldsEveryCall | api/ai/llm.go:143-203 | when the indices met are 0 to k - 1 the response holds k calls, each made of its own fragments |
| StreamReassembly.InterleavingDoesNotMatter | api/ai/llm.go:174-188 | streams with the same fragments for each call give the same calls |
| StreamReassembly.ExchangeKeepsOwn | api/ai/llm.go:174-188 | exchanging neighbouring fragments of different calls leaves each call's own fragments alone |
| LruCache.Cache.Get | api/apikey/cache.go:41-52 | a lookup answers the entry, if there is one, and makes it the most recent |
| LruCache.Cache.Add | api/apikey/cache.go:55-60 | an entry is put in place of the one with its key, and a full cache drops its oldest |
| LruCache.Cache.Remove | api/apikey/cache.go:63-65 | the entry of this key, and no other, is gone |
| LruCache.Cache.RemoveAll | api/apikey/cache.go:68-79 | the loop of lookups and removals removes exactly the matching entries, keeps the others in their order, and reports whether there were any |
| LruCache.FilterContents | api/apikey/cache.go:68-79 | what the loop leaves is exactly the entries that do not match |
| LruCache.WhenPresent | api/apikey/cache.go:41-65 | what each operation does to a key that is in the cache, wherever it stands: a lookup and an addition make it the most recent, and nothing else moves |
| LruCache.WhenAbsent | api/apikey/cache.go:41-65 | and to one that is not: only an addition changes anything, and drops the least recent entry iff the cache is full |
| ApiKeys.Service.GenerateApiKey | api/apikey/service.go:59-81 | a new key is stored under the next identifier and cached; when the repository refuses it nothing changes |
| ApiKeys.Service.GetDigestUserAndKey | api/apikey/service.go:95-115 | the cache first, then the two repository reads, whose answer is cached |
| ApiKeys.Service.UpdateAPIKey | api/apikey/service.go:118-127 | the cache is written before the repository, and success means that both were |
| ApiKeys.Service.DeleteAPIKey | api/apikey/service.go:130-139 | the key leaves the cache before the repository |
| ApiKeys.Service.InvalidateUserKeyCache | api/apikey/service.go:141-143 | exactly that user's entries are removed |
| ApiKeys.LookupIsNearlyDirect | api/apikey/service.go:95-115 | a lookup finds a key iff the two repository reads alone would, and the same one; its user may differ only when saved without an invalidation and cached |
| ApiKeys.LookupIsDirect | api/apikey/service.go:95-115 | in a coherent state a lookup answers what the two repository reads alone would |
| ApiKeys.ApplyKeepsCoherent | api/apikey/service.go:59-143 | every operation keeps cache and repositories coherent, but for the users saved without an invalidation, and changes the repositories as it would without a cache |
| ApiKeys.UserRemovedKeepsCoherent | api/http/handler/users/user_delete.go:91-118 | removing a user and then its keys, one by one, leaves no entry of that user, though in between there are some |
| ApiKeys.UserSavedKeepsCoherent | api/http/handler/users/user_update.go:148-153 | saving a user and invalidating its entries keeps the cache coherent |
| ApiKeys.CacheIsInvisible | api/apikey/service.go:59-143 | over every sequence of operations, saves without an invalidation among them, whatever was evicted, the repositories and every key found are those of a service without a cache, and so is every user found who was not saved without an invalidation since |
| ApiKeyEffects.DirectFinds | api/apikey/service.go:101-112 | the two repository reads answer the key with the digest and its owner, and nothing without either |
| ApiKeyEffects.FoundIsCached | api/apikey/service.go:95-115 | what a lookup finds is then the most recent entry of the cache |
| ApiKeyEffects.GeneratedIsFound | api/apikey/service.go:59-81 | a generated key is found at once, with its owner, under the next identifier |
| ApiKeyEffects.UpdatedIsFound | api/apikey/service.go:118-127 | an updated key is found as updated, with the owner found before |
| ApiKeyEffects.DeletedIsNotFound | api/apikey/service.go:130-139 | a deleted key is not found any more, cached or not |
| ApiKeyEffects.SavedUserIsFound | api/http/handler/users/user_update.go:148-153 | after a save with the invalidation each key of the user is found with the user as saved |
| ApiKeyEffects.RemovedUserIsNotFound | api/http/handler/users/user_delete.go:91-118 | a removed user's keys are not found any more, and everyone else's are as they were |
| ApiKeyEffects.DirtyIff | api/http/handler/users/user_update_password.go:94-97 | a user counts as outdated iff saved without the invalidation and neither saved with it nor removed since |
| ApiKeyHistory.LookupIsAsRead | api/apikey/service.go:95-115 | over every such sequence a lookup finds the owner as stored when the entry was read into the cache, so it is outdated iff the digest is cached and the owner's record has changed since then |
| ApiKeyHistory.EntriesCame | api/apikey/service.go:59-143 | every operation leaves only entries whose user was cached before or has just been read |
| ApiKeyHistory.PasswordChangeIsMissed | api/http/handler/users/user_update_password.go:87-97 | a user is stored, gets a key and changes the password, and a lookup still finds the old user |
| ApiKeys.FailedUpdate | api/apikey/service.go:118-127 | an update whose write fails leaves cache and repository agreeing iff it changed nothing |
| ApiKeys.FailedUpdateIsFound | api/apikey/service.go:118-127 | a failed update after which a lookup finds a key that was never stored |
| ApiKeys.SavedWithoutInvalidation | api/http/handler/users/user_update_password.go:94-97 | a user saved without the invalidation leaves the cache coherent iff no other version of that user is cached |
| TunnelTable.Service.GetUnusedPort | api/chisel/tunnel.go:195-222 | the first port drawn that no tunnel has and nothing listens on |
| TunnelTable.Service.Open | api/chisel/tunnel.go:34-82 | the four refusals, the endpoint that has a tunnel already, and the new tunnel |
| TunnelTable.OutcomesOfOpening | api/chisel/tunnel.go:34-82 | every outcome by its exact cause: who is refused and why, when no port is found, and when a tunnel is open in the end |
| TunnelTable.FirstFreeDraw | api/chisel/tunnel.go:195-218 | the port is the first drawn on which nothing listens and which no tunnel has, and there is none iff no draw is free |
| TunnelTable.TunnelOpened | api/chisel/tunnel.go:56-79 | a new tunnel is required, on that port, used now and not snapshotted, so that a check within four and a half minutes takes its first snapshot |
| TunnelTable.TunnelsWereOpened | api/chisel/tunnel.go:34-190 | over every run an active tunnel was opened for a trusted, synchronous edge endpoint and not closed since, and its port, activity and snapshot mark are from steps since then |
| TunnelTable.Service.Close | api/chisel/tunnel.go:87-109 | exactly that endpoint's tunnel is removed |
| TunnelTable.Service.Config | api/chisel/tunnel.go:112-121 | the endpoint's tunnel, or one that is idle and has no port |
| TunnelTable.Service.UpdateLastActivity | api/chisel/tunnel.go:183-190 | no tunnel appears or disappears, every other one is unchanged, and that endpoint's keeps its status, port and snapshot mark |
| TunnelTable.Service.MarkSnapshotTaken | api/chisel/service.go:321-328 | no tunnel appears or disappears, every other one is unchanged, and that endpoint's keeps its status, port and activity |
| TunnelTable.Service.Scan | api/chisel/service.go:251-301 | the loop decides on the first tunnel, in any order, that needs a snapshot or has expired |
| TunnelTable.PortsAreDistinct | api/chisel/tunnel.go:34-109 | over every interleaving of opening, closing, activity, checks and snapshots, active tunnels are required and have different ports in 49152 to 65534 |
| TunnelTable.OpenIsIdempotent | api/chisel/tunnel.go:47-81 | opening an endpoint that has a tunnel changes nothing, and opening any endpoint changes no other's tunnel |
| TunnelTable.UnusedPortIsFree | api/chisel/tunnel.go:195-218 | a port found is in range and assigned to no tunnel, and one is found iff some draw is free |
| TunnelTable.FreePortIffRoom | api/chisel/tunnel.go:195-222 | there are at most 16383 tunnels, and a port is unassigned iff there are fewer |
| TunnelTable.FullTableNeverOpens | api/chisel/tunnel.go:195-218 | with 16383 tunnels no draw is ever accepted and the table does not change |
| TunnelTable.DecisionIsRight | api/chisel/service.go:254-298 | a check rests iff every tunnel is snapshotted and active, and otherwise acts on a tunnel for the reason it names |
| TunnelTable.FirstIsServed | api/chisel/service.go:254-298 | it acts on the first tunnel, in the order visited, that needs something |
| TunnelTable.SnapshotStepDoes | api/chisel/service.go:263-328 | a first snapshot is marked iff it was taken, its tunnel is closed iff the endpoint is gone, an idle tunnel is closed in any case, and no other tunnel changes |
| TunnelTable.ClosesActiveIffUsed | api/chisel/service.go:283-298 | a tunnel found idle is closed in the end, and is active when it is closed iff it was used or opened meanwhile |
| TunnelTable.ActiveTunnelCanBeClosed | api/chisel/service.go:283-298 | a run in which that happens |
| FileCopy.Disk.Copy | api/filesystem/filesystem.go:171-227 | a copy succeeds iff the source exists and the destination may be replaced, when no call fails; success means that the destination holds exactly the source and nothing else changed; every failure or death leaves the destination as it was, absent, or a part of the source |
| FileCopy.Disk.CopyChunks | api/filesystem/filesystem.go:211-226 | the loop copies everything in chunks of any size up to 1024, and stops at any point with a prefix |
| Migration.MigrateData | api/datastore/migrate_data.go:19-61 | a finished migration has been marked, taken through every step in order, and unmarked; when nothing goes wrong a database that needs it is migrated, and one whose migration fails is restored; a database marked as updating is refused untouched; how each run ends; a failed migration that is restored is exactly the old one; outside the restore copy the database is old, migrated, or marked with the old one beside it; and the old one is never lost |
| Migration.FailSafeMigrate | api/datastore/migrate_data.go:98-135 | success means that the content was marked, went through every step in order, and was unmarked; after every error, panic or death it is old, marked or fully migrated; a panic becomes an error |
| Migration.Transact | api/datastore/migrate_data.go:106-132 | a write takes effect or not, as a whole |
| Migration.Backup | api/datastore/backup.go:16-52 | success means that the backup holds exactly the database; the database itself never changes |
| Migration.Restore | api/datastore/backup.go:54-83 | success means that the database is exactly the backup; the backup itself never changes |
| Migration.WritesKeepFlag | api/datastore/migrate_data.go:111-122 | the mark stays over every number of migration steps |
| Migration.UnmarkedIsComplete | api/datastore/migrate_data.go:25-61 | a database that is not marked is complete, old or new; a marked one has the old one beside it; no state in between is stored unmarked |
| ManifestLabels.AddResourceLabels | api/kubernetes/yaml.go:164-186 | the recursive rewriting, visiting maps in any order, computes the labelled document, or panics exactly on an ill-typed one |
| ManifestLabels.AddAllFields | api/kubernetes/yaml.go:176-185 | the loop over the fields of a map, in any order |
| ManifestLabels.AddFieldLabels | api/kubernetes/yaml.go:177-184 | maps and the direct elements of lists are descended into, and nothing else |
| ManifestLabels.AddLabels | api/kubernetes/yaml.go:188-206 | the labels of one resource, made when missing, with the app's over its own |
| ManifestLabels.ResourcesAreLabelled | api/kubernetes/yaml.go:164-206 | every resource reached carries its own labels printed and all of the app's, and keeps its other fields |
| ManifestLabels.LabelsOfResource | api/kubernetes/yaml.go:194-205 | below every path to a resource, before and after: it has the app's labels and those it had, and its own keep their printed values unless the app has one of that name |
| ManifestLabels.KindDecides | api/kubernetes/yaml.go:164-186 | a map is labelled iff it has a kind other than "list" in any case, and then only its metadata changes; otherwise its maps and lists are gone through and nothing else is touched |
| ManifestLabels.ListsAreLabelledOneDeep | api/kubernetes/yaml.go:180-184 | the resources directly in a list are labelled, each in its place, and a list in a list is not looked into |
| ManifestLabels.NothingElseChanges | api/kubernetes/yaml.go:164-206 | every path apart from the labels of resources leads to what it led to before |
| ManifestLabels.PanicsIffIllTyped | api/kubernetes/yaml.go:164-206 | labelling panics iff it comes to a resource whose kind is no string, whose metadata is no map, or whose labels are no map |
| ManifestLabels.TwiceIffNoResource | api/kubernetes/yaml.go:194-205 | labelling a labelled document again in memory panics iff it holds a resource |
| ManifestLabels.PodCannotBeLabelledTwice | api/kubernetes/yaml.go:194-205 | the smallest such document |
| ManifestLabels.LabellingIsIdempotent | api/kubernetes/yaml.go:66-206 | once it has been written and read back, a labelled document can be labelled again, and is then written as it was |

## Left out

- Cancelling a scheduled build: the canceller and the runner store separate copies of the record, so the last writer wins, and nothing is claimed about a cancelled status being final.
- Recovering scheduled builds after a restart: the runner indexes stored results by freshly resolved targets, so equal lengths are assumed.
- ScheduledBuild.Runner.MarkDeployed: deployed means that the deploy operation was accepted, as in the code, not that it has finished.
- Stored snapshots: a write of a record is the snapshot handed to the data store; a store that fails is only logged by the source and is not modelled. Start and end times are not either, but for the fact that a record is finished.
- The instance's own status: its refresh behind an operation, and what an operation does on a target, are outside; the outcome of a target is arbitrary.
- ContainerRecreate.Daemon: the Docker daemon's behaviour is an assumption (unique names, one network at creation, a forward call that fails has no effect, and the inspection matches the daemon); other clients of the daemon do not interfere.
- The contexts passed to tasks and targets: that a task sees a cancelled context is part of its arbitrary outcome.
- Cryptographic strength, key derivation, the legacy headerless cipher, failing output streams, and random sources that fail.
- EdgeKey.AtoiUndoesItoa: identifiers are 64-bit, as the platform's integers are on the supported systems; elsewhere integers are unbounded.
- Websocket input and output around the repair, the JSON decoding of chunks, and lines too long for the scanner, which count as a failed read.
- ApiKeys.CacheIsInvisible: it is about sequences of whole operations; a lookup that runs between the two writes of a concurrent deletion can put the entry back. Repository reads that fail, key prefixes and dates are left out.
- TunnelTable.Service.GetUnusedPort: the source draws without end, and a table that is full makes it do so; here the draws are a finite list that may run out.
- The chisel server's user list, the proxies, the credentials and the edge cache around the tunnel table.
- Migration.MigrateData: encryption and opening of the database, flushing to disk, the backup directory and the manual rollback are left out; the migration steps are arbitrary transactions that do not clear the mark.
- ManifestLabels.AddResourceLabels: the source rewrites nested maps in place, and the model returns new values, so documents in which two places share one map (aliases) are not modelled. Of encoding and decoding again only its effect on the kinds of map is.
- HTTP handlers, the other Docker and Kubernetes code, git, LDAP, OAuth, the user interface and the plain data services: they would add only easy members or are foreign calls.
