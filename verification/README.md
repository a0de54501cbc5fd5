# CommunityCamGuard in Dafny

This project models the parts of CommunityCamGuard whose correctness is about whole runs rather
than single calls, and proves what they promise. `dafny verify dfyconfig.toml` checks everything.

- **Source ownership** (`SourcePolicy`, `NativeRestart`, `PolicyProtocol`): the per-camera policy
  rows, the one-use restart checkpoints, and every interleaving of snapshot readers, policy writers
  and checkpoint consumers over one SQLite file. The locking assumption is explicit: a rollback
  journal, where a snapshot's SHARED lock keeps a writer from committing.
- **Audio** (`Resampling`, `PcmFramer`, `AudioMessage`): the streaming resampler behind
  push-to-talk, the batch converter behind audio messages, and their agreement.
- **Bluetooth provisioning** (`BleFrames`, `BleAssembler`): the frame codec, fragmentation, and
  reassembly under reordering, repetition, interleaving and damage.
- **Login pacing** (`LoginThrottle`): what one stored number per slot guarantees for every time
  window of every run.
- **Live player** (`MseBuffer`): the bounded queue in front of a SourceBuffer and the live-edge
  controller.
- **Push-to-talk stream** (`Intercom`): the two-thread queue with graceful and abrupt stop.
- **Delegated keys and channels** (`AccessKeys`, `SessionChannels`): key lifetime, and how long a
  channel can outlive its key.
- **Camera registry** (`Registry`): upsert, re-key and the reconciliation of a scan.
- **Archive player** (`RecordingPlayback`): selections, attempts, promises and timers.
- **Pan/tilt pad** (`StepPtz`): presses, drags, repeats and stops.
- **Capture reader** (`Binary64`, `Timestamps`, `Pcap`, `UdpPackets`): the bounded PCAP reader with its
  binary64 timestamps, and UDP extraction.

Where the source updates state in place, the model is a class or a method with loops, proved equal
to a specification function on values; the properties of all runs are lemmas about that function.
The archive player is proved directly on its class: its invariant and the contracts of its handlers
are the properties. Concurrent code is a state machine whose steps are the atomic actions of each
side, so a run is any interleaving. Amplitudes, rates, playback positions and clocks are exact reals; capture
timestamps, whose comparison turns on rounding, are binary64 numbers (IEEE 754, round to nearest even);
encryption, digests, JSON and identity hashing are function parameters with stated assumptions;
clocks, random ids, exceptions of foreign calls and the outcome of every asynchronous operation are
parameters or events.

Where code and description differ, the model follows the code:

- A scan is described as refreshing the address of every known MAC. It raises instead when the
  identity derived from that MAC belongs to another record: `Registry.StopsOnForeignIdentity` says
  exactly when, for one host, `Registry.ScanStopsAfterRekey` exhibits scans that do so after a re-key,
  and `Registry.ScanPreserves` shows that nothing is damaged when the scan stops there.
- An address refresh rewrites the whole row, so a password token that no longer decrypts is erased
  (`Registry.UnreadablePasswordIsErased`), although what callers see does not change.
- A failed step of a drag is treated like a release with the step still in flight, so it also sends
  STOP (`StepPtz.StopExactly`).
- After its one fallback a selection that is served the original recording again is not failed by
  the twelve-second timer (`RecordingPlayback.Playback.OnTimer`).
- The capture reader checks the order of rounded timestamps. For microseconds that is the order of the
  times, for nanoseconds only in the first 2^23 seconds: `Pcap.NanosecondFilesExactly` says exactly which
  files pass, `Pcap.NanosecondsLoseOrder` exhibits one whose times go back, and
  `Pcap.AcceptedAlmostInOrder` bounds how far back they can go.
- The login limiter's slots start at clock zero, so on a clock below zero it refuses more than the rate
  asks for: after n admissions, everything before 6n - 54 (`LoginThrottle.AdmittedExactly`). One second
  below zero a burst is nine attempts (`LoginThrottle.NegativeClockShortensBurst`).

## Model

| member | source | states |
|---|---|---|
| `SourcePolicy.CameraIdShape` | backend/app/camera_identity.py:39-40 | which texts are camera ids |
| `SourcePolicy.SelectedIs` | backend/app/db/source_policy.py:35-52 | no row reads as active legacy at revision 0, a sound row as itself, any other as blocked at -1 |
| `SourcePolicy.BlockExactly` | backend/app/db/source_policy.py:91-126 | a block is accepted exactly with valid arguments, the current revision and an active or transition phase, with its whole effect, and which refusals are ValueErrors and which conflicts |
| `SourcePolicy.ActivateExactly` | backend/app/db/source_policy.py:91-122 | the same for activation, from transition only |
| `SourcePolicy.BeginExactly` | backend/app/db/source_policy.py:91-117 | the same for a change of mode, from active only and to a known mode |
| `SourcePolicy.ChangeWins` | backend/app/db/source_policy.py:91-111 | an accepted change named the current revision, raises it by one within 2^63-1, is what every reader then sees, writes a sound row, never starts from a blocked or damaged row, and touches nothing else |
| `SourcePolicy.CorruptRowIsInert` | backend/app/db/source_policy.py:45-52 | a damaged row permits no legacy RTSP and refuses every change |
| `NativeRestart.Store.ChangePolicy` | backend/app/db/source_policy.py:91-126 | the stored rows after a change, or unchanged rows with the error it raises |
| `NativeRestart.Store.SaveBatch` | backend/app/db/native_restart.py:43-56 | a batch is written whole or not at all, with the error that refused it |
| `NativeRestart.Store.Pending` | backend/app/db/native_restart.py:59-71 | the listed checkpoints are exactly those whose consumption would succeed in that state |
| `NativeRestart.Store.DiscardCheckpoint` | backend/app/db/native_restart.py:74-79 | the checkpoint is gone and nothing else changed |
| `NativeRestart.Store.ConsumeCheckpoint` | backend/app/db/native_restart.py:82-96 | both tables move together, or neither does |
| `NativeRestart.SavedBatchIsSpendable` | backend/app/db/native_restart.py:43-56 | every item of a saved batch can be consumed and other cameras' checkpoints are untouched |
| `NativeRestart.SaveExactly` | backend/app/db/native_restart.py:28-56 | which batches are saved, refused as invalid, or refused as a conflict |
| `NativeRestart.ConsumeExactly` | backend/app/db/native_restart.py:82-90 | which checkpoints can be spent: the stored one of a configured camera that is native, blocked and at its revision |
| `NativeRestart.DiscardExactly` | backend/app/db/native_restart.py:74-79 | the camera's checkpoint is gone, cannot be spent, and nothing else changed |
| `NativeRestart.ConsumeSpends` | backend/app/db/native_restart.py:82-96 | consuming takes blocked native intent to transition at the next revision, once |
| `PolicyProtocol.IntentRules` | backend/app/db/source_policy.py:91-126 | what an accepted operation did: who may enter which phase with which mode, and that blocked is left only by spending a matching checkpoint |
| `PolicyProtocol.AcceptedExactly` | backend/app/db/source_policy.py:91-126 | which operations are accepted, as an if-and-only-if on the stored state |
| `PolicyProtocol.StepsTakeEffect` | backend/app/db/source_policy.py:60-111 | an accepted operation is staged without another writer and committed without open snapshots; a snapshot reads what it asked for |
| `PolicyProtocol.OpenSnapshotsAreCurrent` | backend/app/db/source_policy.py:60-83 | in every interleaving an open snapshot, which takes its lock and then reads one camera per step, agrees with the durable policy for everything it has read at once, and no commit happens while it is open |
| `PolicyProtocol.AlwaysConsistent` | backend/app/db/source_policy.py:60-111 | every run keeps snapshots current, staged transactions honest and the commit history a chain |
| `PolicyProtocol.RevisionCountsChanges` | backend/app/db/source_policy.py:104-111 | a camera's revision is its first one plus the number of accepted changes, and never passes 2^63-1 |
| `PolicyProtocol.OneWinnerPerRevision` | backend/app/db/source_policy.py:104-105 | of two accepted changes to a camera the later names a larger revision, so one coordinator wins each |
| `PolicyProtocol.CheckpointSpentOnce` | backend/app/db/native_restart.py:82-96 | no run spends a checkpoint twice for the same camera and revision, whatever was saved again |
| `PolicyProtocol.BlockedLeavesByCheckpoint` | backend/app/db/native_restart.py:88-95 | the first change of a blocked intent in any history is the consumption of a matching checkpoint |
| `PolicyProtocol.BlockedForever` | backend/app/db/source_policy.py:48-52 | a camera blocked in a mode other than native, or with a damaged row, never permits legacy RTSP again in any run |
| `PolicyProtocol.SoundRowsStaySound` | backend/app/db/source_policy.py:106-110 | no operation ever writes a damaged row |
| `LoginThrottle.LoginThrottle.RetryAfter` | backend/app/login_throttle.py:43-51 | on any clock that does not go back: zero exactly when admitting keeps every window within quota and the slot's warm-up is over (on a non-negative clock, exactly when it keeps the quota); otherwise the wait is the least whole number of seconds that suffices; other slots are untouched |
| `LoginThrottle.WindowsAreSpacing` | backend/app/login_throttle.py:22-25 | for admissions on any non-decreasing clock the bound 10 + floor(W/6) on all windows is the same as a spacing between any two of them |
| `LoginThrottle.AdmittedExactly` | backend/app/login_throttle.py:43-51 | on every non-decreasing clock a request is admitted exactly when no window would overflow and the clock has reached 6n - 54 for a slot with n admissions |
| `LoginThrottle.AdmittedIffWithinRate` | backend/app/login_throttle.py:47-50 | on a clock that started at or above zero the comparison with the stored number decides exactly whether some window would overflow |
| `LoginThrottle.WarmUpIsOver` | backend/app/login_throttle.py:27-29 | on such a clock a request that no window forbids is past the warm-up, so the warm-up never decides |
| `LoginThrottle.NegativeClockShortensBurst` | backend/app/login_throttle.py:27-29 | a run one second below clock zero in which the tenth attempt of a burst is refused although no window overflows |
| `LoginThrottle.EveryRunWithinRate` | backend/app/login_throttle.py:43-51 | in every run of a slot, on every non-decreasing clock, no closed window of length W holds more than 10 + floor(W/6) admissions |
| `LoginThrottle.RefusedOnlyOverRate` | backend/app/login_throttle.py:47-51 | in every run a request is refused exactly when admitting it would break that bound or the warm-up is not over; on a clock that started at or above zero, exactly when it would break the bound |
| `LoginThrottle.AdvertisedWait` | backend/app/login_throttle.py:48-49 | waiting the returned seconds is enough, one second less is not |
| `LoginThrottle.FirstAttempt` | backend/app/login_throttle.py:27-29 | a fresh slot admits at every time from 54 s below clock zero on, and at no earlier one |
| `Resampling.AvailableIsQuotient` | frontend/modules/audio-message.js:25-25 | the windows that fit, counted as the framer's loop does, are floor(length / ratio) |
| `Resampling.WindowBounds` | frontend/modules/push-to-talk.js:23-26 | windows are non-empty, tile the input and never read past it |
| `Resampling.FlattenJoins` | frontend/modules/audio-message.js:8-17 | chunks joined in order |
| `Resampling.BeginIsFloor` | frontend/modules/audio-message.js:31-32 | window k begins at floor(k * ratio) |
| `Resampling.SumSplits` | frontend/modules/push-to-talk.js:25-26 | sums over neighbouring stretches add up, and one sample is its own sum |
| `Resampling.LevelIsMean` | frontend/modules/push-to-talk.js:25-27 | the level of a window is the mean of its samples, limited to the range from -1 to 1 |
| `Resampling.LittleEndian` | frontend/modules/push-to-talk.js:31-33 | a code is two bytes of two's complement, the low one first |
| `Resampling.RoundingAgainstTruncation` | frontend/modules/push-to-talk.js:28-28 | when rounding and truncation agree, exactly, and by how much they differ otherwise |
| `PcmFramer.PcmFramer.Feed` | frontend/modules/push-to-talk.js:19-44 | the frames emitted so far and the kept state are those of everything fed so far; 0 <= position < 1 and less than 1 + ratio samples are kept |
| `PcmFramer.FramesPrefix` | frontend/modules/push-to-talk.js:22-37 | later input never changes a frame already emitted |
| `PcmFramer.WireAt` | frontend/modules/push-to-talk.js:31-33 | the little-endian wire of a frame reads back to its codes |
| `PcmFramer.Stream` | frontend/modules/push-to-talk.js:8-45 | for every way of cutting the signal into chunks, the frames and the final state are those of the whole signal; rates under 16 kHz are refused |
| `AudioMessage.PcmForCamera` | frontend/modules/audio-message.js:19-42 | the exact bytes, and both refusals with their exact conditions |
| `AudioMessage.Concatenate` | frontend/modules/audio-message.js:8-17 | the joined recording |
| `AudioMessage.SameFrameCount` | frontend/modules/audio-message.js:25-26 | the batch converter keeps the streamed frames, up to ten seconds of them |
| `AudioMessage.StreamAgreesWithBatch` | frontend/modules/audio-message.js:31-40 | every sample is within one step of the streamed sample, with the exact condition for equality and the direction of a difference |
| `AudioMessage.CodesAreMeans` | frontend/modules/audio-message.js:31-40 | every code is the mean of its window at full scale, 32767 above zero and 32768 below: rounded to nearest in the stream, cut towards zero in a message |
| `AudioMessage.StreamedConstant` | frontend/modules/push-to-talk.js:23-34 | the 16-bit sample that a window of equal samples becomes on the push-to-talk wire, clipping included |
| `AudioMessage.MessageConstant` | frontend/modules/audio-message.js:31-40 | the same in an audio message |
| `AudioMessage.MessageLength` | frontend/modules/audio-message.js:25-29 | a message has whole frames of 640 bytes, at most 500 of them |
| `BleFrames.ParseEncode` | frontend/modules/camera-provisioning-ble.js:68-90 | every frame that fits the header parses back to itself |
| `BleFrames.EncodeParse` | frontend/modules/camera-provisioning-ble.js:68-90 | whatever parses is the encoding of what was read, so no bytes have two readings |
| `BleFrames.PackedBits` | frontend/modules/camera-provisioning-ble.js:49-53 | the header bytes of every encoded frame are the bitwise or of its shifted fields, counts and indices up to fifteen included |
| `BleFrames.HeaderBits` | frontend/modules/camera-provisioning-ble.js:72-83 | the parser's divisions and remainders of a byte are the shifts and masks of its bits |
| `BleFrames.FragmentAccepts` | frontend/modules/camera-provisioning-ble.js:41-48 | a message is accepted exactly when its fields are in range and fifteen full frames can hold it |
| `BleFrames.FragmentRefuses` | frontend/modules/camera-provisioning-ble.js:41-48 | which error refuses a message |
| `BleFrames.ParseRefuses` | frontend/modules/camera-provisioning-ble.js:68-90 | which error refuses a frame, from the bits of its header |
| `BleFrames.FragmentParses` | frontend/modules/camera-provisioning-ble.js:50-56 | fragment i parses to frame i of the message |
| `BleFrames.PiecesRestorePayload` | frontend/modules/camera-provisioning-ble.js:46-51 | the fragments' data joined in index order is the payload |
| `BleAssembler.Assembler.AddFrame` | frontend/modules/camera-provisioning-ble.js:100-128 | the new key and parts and the answer of one frame |
| `BleAssembler.RefusalKeepsState` | frontend/modules/camera-provisioning-ble.js:101-112 | a refused frame leaves everything stored as it was, and exactly malformed and conflicting frames are refused |
| `BleAssembler.AnyOrderReassembles` | frontend/modules/camera-provisioning-ble.js:100-128 | fragments of any valid message in any order with any repetitions answer nothing until all indices were seen, then exactly the original message, for every MTU |
| `BleAssembler.StoredPartsHaveSources` | frontend/modules/camera-provisioning-ble.js:96-113 | in any stream of frames and resets every stored part is an accepted fragment of the current key received since the key last changed or the assembler was reset |
| `BleAssembler.ResetForgets` | frontend/modules/camera-provisioning-ble.js:96-99 | after a reset, state and answers are those of a new assembler, whatever came before |
| `BleAssembler.MessagesHaveSources` | frontend/modules/camera-provisioning-ble.js:114-127 | in any stream of frames and resets a returned message is the index-order concatenation of accepted fragments that share its key, all since the last key change, reset or completion |
| `MseBuffer.AlwaysValid` | frontend/video-rtc.js:499-534 | in every run, until failure, received equals appended followed by queued; the byte count is exact and within 16 MiB; a non-empty queue has work or a completion event outstanding |
| `MseBuffer.OnDataExactly` | frontend/video-rtc.js:616-634 | an arriving fragment is queued last while the SourceBuffer is busy or others wait, else handed over at once; it fails the player exactly if the queue would pass 16 MiB or the hand-over throws |
| `MseBuffer.FailsExactly` | frontend/video-rtc.js:498-634 | which events fail a player, exactly |
| `MseBuffer.RunFailsExactly` | frontend/video-rtc.js:498-634 | a run fails exactly if one of its events is fatal when it arrives |
| `MseBuffer.FailedIsFinal` | frontend/video-rtc.js:499-506 | after a failure nothing is received, queued or handed over |
| `MseBuffer.QueueDrains` | frontend/video-rtc.js:524-534 | the oldest queued fragment is handed over at the next idle updateend, or right after one prune |
| `MseBuffer.PruneOnce` | frontend/video-rtc.js:547-556 | a prune removes a non-empty interval short of the live edge, and after exact removal does not repeat |
| `MseBuffer.LiveGapBounded` | frontend/video-rtc.js:557-611 | after every live updateend that does not prune the gap is above 0 and at most 8 s; only underruns and stale gaps seek, to 0.75 s or 3 s before the end or to the start of a shorter newest range; and the rate is the one for the gap |
| `MseBuffer.StartsInNewestRange` | frontend/video-rtc.js:559-573 | playback starts exactly when the newest range holds three seconds, three seconds before its end |
| `MseBuffer.LiveBuffer.OnUpdateEnded` | frontend/video-rtc.js:538-614 | the handler's effect on the closure, the video and the SourceBuffer, which it never touches while updating |
| `MseBuffer.LiveBuffer.OnDataArrived` | frontend/video-rtc.js:616-634 | queueing, direct append, overflow and failure |
| `MseBuffer.LiveBuffer.TakeNext` | frontend/video-rtc.js:524-534 | taking the oldest fragment off the queue and handing it over |
| `Intercom.EveryInterleaving` | backend/app/api/intercom.py:111-134 | frames reach the driver in order, at most 25 queued and 500 accepted; reaching the marker, also one that an abandoned put delivers late, means all were yielded |
| `Intercom.StoppedYieldsNoMore` | backend/app/api/intercom.py:121-134 | once the stop event is set, nothing but a frame being yielded right then gets out, so no frame taken after it is ever yielded |
| `Intercom.NothingBeforeReady` | backend/app/api/intercom.py:119-119 | nothing is accepted before the worker starts the generator |
| `Intercom.WorkerEndsExactly` | backend/app/api/intercom.py:121-127 | what an empty queue, an expired idle time and the driver do to the generator |
| `Intercom.MarkerPut` | backend/app/api/intercom.py:249-253 | the marker of a graceful end: put when there is room, replaced by the stop event after a second |
| `Intercom.MarkerAbandoned` | backend/app/api/intercom.py:249-253 | a cancelled put, whose thread may still deliver the marker |
| `Intercom.NothingLostWhileRunning` | backend/app/api/intercom.py:179-220 | while the worker runs, accepted frames are those yielded, in hand or queued |
| `Intercom.ReceiveExactly` | backend/app/api/intercom.py:189-229 | what each message does: which frames are accepted, which messages end the stream gracefully and which abruptly |
| `Intercom.ReceivesOnlyWhileRunning` | backend/app/api/intercom.py:179-179 | nothing is received outside the receive loop |
| `Intercom.GracefulStopDrains` | backend/app/api/intercom.py:217-253 | in every unforced run after a stop text or ten seconds of sound the stop event is never set, and an uninterrupted generator ends only after all accepted frames were yielded |
| `Intercom.AbruptStop` | backend/app/api/intercom.py:248-259 | any other end sets the stop event when it is finalized, whatever else happens |
| `Intercom.CancelledIsAbrupt` | backend/app/api/intercom.py:230-259 | a cancelled stream is never drained |
| `Intercom.SessionDelivers` | backend/app/api/intercom.py:111-259 | for any list of up to 500 frames there is a run that accepts and yields all of them and ends at the marker |
| `Intercom.StepKeepsValid` | backend/app/api/intercom.py:157-259 | every step of either side, including cancellation, timeouts, abandoned puts and the late arrival of their marker, keeps the ledger of frames and the bounds |
| `AccessKeys.Repository.Insert` | backend/app/access_keys.py:87-102 | a key is stored unrevoked, unless its expiry is not in the future or its id is taken |
| `AccessKeys.Repository.RevokeKey` | backend/app/db/access_keys.py:50-60 | revocation keeps the first timestamp and reports the key as revoked |
| `AccessKeys.IssueExactly` | backend/app/access_keys.py:87-102 | which keys are issued, what is stored for them, and that no other key changes |
| `AccessKeys.PrintedCredential` | backend/app/access_keys.py:95-96 | what is printed for a new key is a credential that names it |
| `AccessKeys.Alphabets` | backend/app/access_keys.py:22-23 | the characters of ids and of the random part |
| `AccessKeys.OnlyFirstRevocationCounts` | backend/app/db/access_keys.py:50-60 | all a run can change of an existing key is its first revocation time |
| `AccessKeys.NeverActiveAgain` | backend/app/access_keys.py:75-84 | a revoked or expired key is never active again on a clock that does not go back |
| `AccessKeys.IssuedKeyAuthenticates` | backend/app/access_keys.py:131-145 | the issued credential logs in exactly until expiry or revocation, even one that commits during the login, and gets its title and permissions |
| `AccessKeys.LoginRequiresSecret` | backend/app/access_keys.py:138-145 | a login needs a well-formed text with the stored digest and a key still active at the second read, and returns that key |
| `SessionChannels.WaitUntilInvalid` | backend/app/session_channels.py:26-35 | when the polling loop returns, and that it does within 11 s of invalidity |
| `SessionChannels.GuardEndsExactly` | backend/app/session_channels.py:26-35 | the guard ends at the first verification that takes over 5 s, raises or finds the key invalid, at the exact time |
| `SessionChannels.GuardEndsSoon` | backend/app/session_channels.py:26-35 | the guard ends within 2 * CHECK_TIMEOUT + CHECK_INTERVAL of invalidity, or one round after a later start |
| `SessionChannels.GuardEndsForCause` | backend/app/session_channels.py:26-35 | with verifications that answer in time the guard does not end before invalidity |
| `SessionChannels.BoundIsTight` | backend/app/session_channels.py:13-14 | runs come arbitrarily close to the 11 s |
| `SessionChannels.RevokedGuardEnds` | backend/app/session_channels.py:26-35 | the guard of a channel whose key is revoked or expires ends within 11 s whatever else happens to the key table |
| `SessionChannels.RevokedChannelEnds` | backend/app/session_channels.py:26-65 | cancellation of a channel's work is requested, after its hook, within 11 s of its key's revocation or expiry, in every timed run of a prompt loop and whatever else happens to key table, verifications and channel |
| `SessionChannels.FailedCheckEndsChannel` | backend/app/session_channels.py:26-65 | a verification that times out, raises or fails costs the channel its work from that moment on, even of a valid key |
| `SessionChannels.FirstAwaitReturns` | backend/app/session_channels.py:49-58 | what follows the end of either task: hook, cancellation and close, or the work's own result |
| `SessionChannels.WorkEndsItself` | backend/app/session_channels.py:44-65 | work that ends by itself is neither cancelled nor followed by the hook or a close |
| `SessionChannels.BothTasksReaped` | backend/app/session_channels.py:44-65 | in every order of events both tasks are finished when run_guarded returns, and work is never cancelled before the hook ran |
| `SessionChannels.GuardEndCancelsWork` | backend/app/session_channels.py:50-56 | in every timed run of a prompt loop, from the time the guard returns on the work has ended or was asked to cancel after its hook ran |
| `SessionChannels.AlwaysReturns` | backend/app/session_channels.py:44-65 | for every event sequence: once both tasks ended and each await the coroutine is found in was delivered, run_guarded has returned, socket open or not |
| `Registry.UpsertExactly` | backend/app/db/registry.py:250-332 | an upsert is refused exactly for an invalid identity or a MAC of another record |
| `Registry.UpsertSetsOnlyGiven` | backend/app/db/registry.py:250-332 | an upsert stores what it returns, sets each given field and no other of one record, and adds a record, with its defaults, only if identity and MAC are unknown |
| `Registry.RekeyPreserves` | backend/app/db/registry.py:350-375 | a re-key moves one record to a MAC nobody had, changes nothing else, and never merges two |
| `Registry.RefreshAddress` | backend/app/db/registry.py:424-425 | the refresh succeeds exactly when the derived identity is free or the record's own, and then changes only address and update time |
| `Registry.StopsOnForeignIdentity` | backend/app/db/registry.py:414-425 | one host stops the scan with a MAC conflict exactly when it is recognised as one camera while the identity derived from its MAC is another registered one |
| `Registry.ScanStopsAfterRekey` | backend/app/db/registry.py:396-439 | two-host scans that re-key one camera, refresh it, re-key another and then stop without refreshing it |
| `Registry.HostOutcome` | backend/app/db/registry.py:414-438 | what a scanned host comes to, exactly: skipped, a candidate, refreshed, or an error |
| `Registry.HostPreserves` | backend/app/db/registry.py:414-438 | one scanned host keeps every camera and its configuration; a known one gets the scanned MAC and address, a candidate is an unregistered RTSP host |
| `Registry.ScanPreserves` | backend/app/db/registry.py:396-439 | any scan, also one that stops on an error, keeps the camera ids, names, credentials, paths and capabilities and the uniqueness of MACs |
| `Registry.ScanReports` | backend/app/db/registry.py:411-439 | what a scan reports, host by host and in order: new RTSP hosts as candidates, recognised ones as stored cameras, until one stops it |
| `Registry.UnreadablePasswordIsErased` | backend/app/db/registry.py:112-123 | a stored token is dropped by a refresh exactly when it reads as no password |
| `Registry.CameraTable.UpsertCamera` | backend/app/db/registry.py:250-332 | the stored rows after an upsert, or unchanged rows with the error |
| `Registry.CameraTable.RekeyCamera` | backend/app/db/registry.py:350-375 | the stored rows after a re-key and the moved camera |
| `Registry.CameraTable.Reconcile` | backend/app/db/registry.py:396-439 | the loop computes the scan's result and leaves the table preserved |
| `RecordingPlayback.Session` | frontend/modules/recording-playback.js:2-251 | after any run the video has a source exactly when the selection is ready, and it is that recording; every pending timer belongs to the current selection and attempt; no selection fell back twice, whichever outstanding replies, promises and timers were delivered in whichever order |
| `RecordingPlayback.NewSelection` | frontend/modules/recording-playback.js:232-235 | what a new selection starts with |
| `RecordingPlayback.DetachedSelection` | frontend/modules/recording-playback.js:97-100 | what losing the source changes of a selection |
| `RecordingPlayback.Playback.Stop` | frontend/modules/recording-playback.js:16-30 | superseding a selection leaves none of its timers pending |
| `RecordingPlayback.Playback.Play` | frontend/modules/recording-playback.js:54-73 | one pending promise per attempt, and a new watch of its start |
| `RecordingPlayback.Playback.Fail` | frontend/modules/recording-playback.js:93-108 | the source and its timers go, the attempt is superseded and the position kept |
| `RecordingPlayback.Playback.Fallback` | frontend/modules/recording-playback.js:110-127 | at most one fallback per selection, which supersedes the attempt and asks for a transcode |
| `RecordingPlayback.Playback.Ready` | frontend/modules/recording-playback.js:129-140 | the source becomes this selection's recording; its playback is requested under a new attempt and watched |
| `RecordingPlayback.Playback.OnCheckReply` | frontend/modules/recording-playback.js:142-160 | a superseded reply changes nothing; a current one readies, polls or fails, with its whole effect |
| `RecordingPlayback.Playback.OnCheckFailed` | frontend/modules/recording-playback.js:160-167 | a superseded error changes nothing; a current one fails the selection |
| `RecordingPlayback.Playback.OnPlayRejected` | frontend/modules/recording-playback.js:63-72 | a rejection of a superseded selection or attempt changes nothing; the whole effect of a current one |
| `RecordingPlayback.Playback.OnTimer` | frontend/modules/recording-playback.js:32-91 | a firing timer always belongs to the current selection and attempt; its whole effect by kind |
| `RecordingPlayback.Playback.OnPlaying` | frontend/modules/recording-playback.js:169-178 | without a ready source nothing changes; otherwise playback counts as started and its watch timers are gone, or an undecodable original falls back |
| `RecordingPlayback.Playback.OnPause` | frontend/modules/recording-playback.js:187-192 | a pause leaves exactly the poll timer pending |
| `RecordingPlayback.Playback.OnPlay` | frontend/modules/recording-playback.js:184-186 | playing again renews the watch of a source that has not started |
| `RecordingPlayback.Playback.OnWaiting` | frontend/modules/recording-playback.js:193-198 | waiting for data is watched from the current position |
| `RecordingPlayback.Playback.OnTimeUpdate` | frontend/modules/recording-playback.js:202-208 | progress renews the watch |
| `RecordingPlayback.Playback.Dispatch` | frontend/modules/recording-playback.js:2-251 | every deliverable event keeps the invariant, and after disposal none changes source or status |
| `RecordingPlayback.Playback.OnSelect` | frontend/modules/recording-playback.js:225-236 | reselecting a working recording reloads nothing; a failed one resumes at its saved position |
| `RecordingPlayback.Playback.OnDispose` | frontend/modules/recording-playback.js:237-250 | disposal leaves no source and no timer |
| `RecordingPlayback.Playback.OnMetadata` | frontend/modules/recording-playback.js:179-183 | the saved position is restored once, within the duration |
| `RecordingPlayback.Playback.OnError` | frontend/modules/recording-playback.js:209-213 | errors without a ready source change nothing; others fail or fall back |
| `StepPtz.AlwaysValid` | frontend/modules/step-ptz.js:12-64 | at most one step in flight, no repeat armed meanwhile, timers and listeners only during a gesture, in every run |
| `StepPtz.StopExactly` | frontend/modules/step-ptz.js:50-64 | STOP is sent exactly when a dragging gesture ends with a step in flight, and an event makes at most one request |
| `StepPtz.StepDirection` | frontend/modules/step-ptz.js:14-23 | a step is sent only while none is in flight and in the direction the event asks for |
| `StepPtz.ClickSends` | frontend/modules/step-ptz.js:71-81 | which clicks send a step |
| `StepPtz.PressOpens` | frontend/modules/step-ptz.js:88-103 | what a primary press does |
| `StepPtz.DragFollows` | frontend/modules/step-ptz.js:104-115 | what a move does: from eight pixels on a drag that follows the heading |
| `StepPtz.GestureEnds` | frontend/modules/step-ptz.js:50-65 | which events end a gesture, with its timers and listeners |
| `StepPtz.HeadingIsFurthest` | frontend/modules/step-ptz.js:109-113 | a drag heads where the pointer is furthest from the pad's centre, and nowhere exactly inside the dead zone |
| `StepPtz.HeldDragRepeats` | frontend/modules/step-ptz.js:41-47 | a confirmed step of a held drag is followed by one in the drag's current direction |
| `StepPtz.QuietAfterRelease` | frontend/modules/step-ptz.js:50-64 | after a release no step is sent without a new press or click |
| `StepPtz.PressSendsAtMostOne` | frontend/modules/step-ptz.js:71-103 | a press that never becomes a drag sends one step if it hit a free direction button and none otherwise, its click included and whatever other pointers press while it is held |
| `StepPtz.Controls.OnPointerMove` | frontend/modules/step-ptz.js:104-115 | small moves and other pointers do nothing; a drag follows the pad's heading and sends a step only if none is in flight or scheduled |
| `StepPtz.Controls.OnPointerDown` | frontend/modules/step-ptz.js:88-103 | a second pointer or button is ignored; a press opens a gesture with its safety timer and sends its step unless one is in flight |
| `StepPtz.Controls.OnReply` | frontend/modules/step-ptz.js:30-47 | a failed step ends the gesture; a confirmed one re-arms the repeat of a held drag only |
| `Pcap.Packets` | scripts/pcap_input.py:18-50 | the reader loop yields the specified timestamps, bodies and error for every file; timestamps never decrease; a file read without an error is exactly its header and the records read, in budget |
| `Pcap.ReadableExactly` | scripts/pcap_input.py:18-50 | decoding the encoding of an in-budget record list, in either byte order and precision, returns exactly that list if and only if its binary64 timestamps are in order |
| `Pcap.FileRoundTrip` | scripts/pcap_input.py:18-50 | every in-budget list in order of time, in either byte order and precision, is read back record by record to its timestamps and bodies |
| `Pcap.YieldsIdentifyTimes` | scripts/pcap_input.py:46-50 | in microseconds, and in nanoseconds before 2^23 seconds, equal yields mean equal times and bodies |
| `Pcap.YieldedExactly` | scripts/pcap_input.py:31-50 | records read before the end or the error are in budget, in order of timestamps and exactly the bytes they came from; without an error they are the whole file |
| `Pcap.AcceptedAlmostInOrder` | scripts/pcap_input.py:46-49 | the records of an accepted file are in order of time in microseconds, and at most 476 ns out of it in nanoseconds |
| `Pcap.NanosecondFilesExactly` | scripts/pcap_input.py:46-49 | a nanosecond file is accepted exactly when its times, rounded to the last place that a timestamp has at their date, are in order |
| `Pcap.NanosecondFilesKeepTime` | scripts/pcap_input.py:46-49 | accepted nanosecond files with seconds below a bound are all in order of time if and only if the bound is at most 2^23 |
| `Pcap.NanosecondsLoseOrder` | scripts/pcap_input.py:46-50 | a file with times 100 ns and then 50 ns into a second of 2023 is accepted and yields that second twice |
| `Pcap.HeaderExact` | scripts/pcap_input.py:22-28 | an accepted header is the encoding of what was read from it |
| `Pcap.HeaderRefused` | scripts/pcap_input.py:20-28 | which error refuses a file at its header |
| `Pcap.RecordRefused` | scripts/pcap_input.py:35-48 | which error refuses a record, exactly |
| `Timestamps.StampsKeepOrder` | scripts/pcap_input.py:46-46 | times in order have timestamps in order, in both precisions |
| `Timestamps.StampsOrderTicks` | scripts/pcap_input.py:46-47 | timestamps are in order exactly when the times are, in microseconds always and in nanoseconds before 2^23 seconds |
| `Timestamps.NanosecondsDistinguished` | scripts/pcap_input.py:46-46 | timestamps tell the nanoseconds of a second apart exactly in the first 2^23 seconds |
| `Timestamps.StampsAlmostOrder` | scripts/pcap_input.py:46-47 | nanosecond timestamps in order leave the times at most 476 ns out of order |
| `Timestamps.AlmostOrderIsTight` | scripts/pcap_input.py:46-47 | two times 476 ns apart that share a timestamp |
| `Timestamps.StampInUnits` | scripts/pcap_input.py:46-46 | dividing and adding round twice, but a nanosecond timestamp from 2^23 seconds on is the time rounded once |
| `Timestamps.NanosecondOrder` | scripts/pcap_input.py:46-47 | the order of any two nanosecond timestamps in terms of whole numbers |
| `Binary64.RoundIsNearest` | scripts/pcap_input.py:46-46 | the rounding of the model is to a nearest binary64 number |
| `Binary64.RoundIsRepresentable` | scripts/pcap_input.py:46-46 | what it rounds to is a binary64 number |
| `Binary64.RoundExact` | scripts/pcap_input.py:46-46 | binary64 numbers are rounded to themselves |
| `Binary64.RoundMonotone` | scripts/pcap_input.py:46-46 | rounding never reverses an order |
| `UdpPackets.UdpRoundTrip` | scripts/pcap_input.py:53-66 | an unfragmented packet with any options and trailing padding parses to its endpoints and payload |
| `UdpPackets.UdpExact` | scripts/pcap_input.py:53-66 | an accepted capture is a well-formed packet followed by padding |
| `UdpPackets.DottedInjective` | scripts/pcap_input.py:64-65 | the dotted text identifies the address |
| `UdpPackets.DecimalIsValue` | scripts/pcap_input.py:64-65 | each byte is written in decimal without leading zeros |
| `UdpPackets.DottedParts` | scripts/pcap_input.py:64-65 | the four bytes in order, with dots between |

## Left out

- HTTP routing, request models, error presenters and the application lifespan.
- ONVIF and RTSP clients, subnet scanning, process supervision and trial scripts.
- DOM construction, translations, WebRTC negotiation and the Web Bluetooth connection.
- Floating-point rounding and non-finite numbers in audio, player and clock arithmetic; reals are exact.
- Cryptography, digests and JSON: function parameters with the assumptions of `Registry.Env.Faithful`.
- Validation of key labels and permissions and the paging of keys.
- The hashing of a login origin to its slot; requests name the slot.
- Missing policy and checkpoint tables: an absent table is an empty one, and creating it is invisible.
- The request timer of the archive player, whose abort only makes the outstanding request fail, and its codec hint.
- A WebRTC peer beside the live player: the dashboard plays in MSE mode only, so `fail` is never suppressed.
- The media-diagnostic events of the live player and the suggested stream path of a scan candidate.
- The messages sent back over the push-to-talk socket and its level statistics.
- Push-to-talk threads: modelled as interleaved atomic steps on values, not as running threads.
- SessionChannels.WaitUntilInvalid: sleeps and timeouts are exact, as on a prompt event loop.
- SessionChannels.RevokedChannelEnds: a finished guard resumes the waiting coroutine at once, as on a prompt event loop.
- MseBuffer.PruneOnce: assumes that remove() removes exactly the interval it is given.
- LoginThrottle.EveryRunWithinRate: assumes a clock that does not go back, as a monotonic clock promises.
- NativeRestart.Store.Pending: the source's SELECTs are not one transaction, so its list is exact only when nothing commits while it is read.
