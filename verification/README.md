# Verification of the Go1 relay, shared board and recorder

This project models four connected parts of the quadlink78 repository and proves what they promise.

1. **The shared-state board.** Eight partitions of shared memory, each a sequence lock with one
   writer, which may die between any two stores and be replaced, and any number of readers in C++ and
   Go. `Seqlock` is the step system with its invariant over all interleavings; `Attempts` is about the
   loads that a reader's call consists of; `SharedBoard` holds `publish`, `snapshot` and
   `readBoardSlot` as programs. Before each of their atomic accesses every other writer takes any
   number of steps, so each method is proved for all interleavings.
2. **CRC32C and the frame codecs.** `Crc32c`, `CrcDivision` and `CrcBursts` show that the table-driven
   loop is the bit-serial register, that the register is the remainder of a polynomial division over
   GF(2) by the Castagnoli polynomial (section 12.1 of RFC 3720), and that no error confined to 32
   consecutive bits goes unnoticed. `Frames`, `FrameCodec`, `RelayParser`, `Observations` and
   `ObservationCodec` hold the codecs, in both languages, and their inverses; `WireLayout` spells out
   their bytes and checks.
3. **The recorder and its archive.** `ArchiveFormat` and `Archive` hold the stream format and its two
   readers; `Recording` the laws of the recorder's log; `Recorder` the sampling loop, the 128-entry
   queue and the goroutine that drains it, tied to the board's commits.
4. **The relay.** `Relay` holds the endpoint table with leases and twelve counters; `RelayRuns` what
   holds of every run; `RelayLaws` what each event does, in terms of the events before it.

`Adapter` adds the environment that the toolkit builds for a backend. `Words` and `Gf2` are the
arithmetic underneath.

Conventions. Bytes and words are integers confined to their width; every wrap-around is written out
(`Add64`, `Sub64`, `Following`, `% MOD_64`). Floats are raw bit patterns. The number of commits to the
board is unbounded: where a claim needs fewer than `2^63` of them, the bound is a hypothesis, and
`Seqlock.BoundIsTight` and `Seqlock.NeverDecreasesIffNoWrap` show that it cannot be relaxed. A writer
lock is the condition that a partition has at most one owner. Compression is the identity and SHA-256
any function with 32-byte results.

What turned out not to hold as one might expect:

- Go's `validObservationPacket` accepts frames that the C++ decoders refuse, because it looks neither
  at the termination of names nor at finiteness (`Observations.GoAcceptsMore` gives the exact
  difference, `Observations.GoAcceptsUnterminatedName` and `Observations.GoAcceptsInfinity` an instance
  of each kind).
- `verifyRecord` accepts archives that `analyzeArchive` refuses: it looks neither at revisions nor at
  the manifest's format and sizes (`Archive.AnalyzesIffVerifies` gives the exact difference,
  `Archive.VerifiedButNotAnalyzed` an instance).
- A name that contains a NUL byte is encoded without complaint but does not come back
  (`Observations.ObservationRoundTrip`).
- `encodeFrame` looks neither at the type nor at the role of a frame, so a decoder accepts what it
  wrote exactly when both are the expected ones (`Frames.CommandRoundTrip`).

## Model

| member | source | states |
|---|---|---|
| Words.PutU32 | include/quadlink78/relay_protocol.hpp:91-97 | the four bytes written are the little-endian image of the value, nothing after them changes |
| Words.PutU64 | include/quadlink78/relay_protocol.hpp:99-104 | the same for eight bytes, by the loop |
| Words.GetU32Image | include/quadlink78/relay_protocol.hpp:106-112 | the word read is the one whose image those four bytes are |
| Words.GetU64Image | include/quadlink78/relay_protocol.hpp:114-121 | the same for eight bytes |
| Seqlock.StepKeepsInv | include/quadlink78/shared_state_board.hpp:67-85 | every step of a writer, its death or its successor's start keeps the invariant: an even nonzero revision stands for exactly one stored payload; the unwrapped revision never falls, and while it stays even nothing changes |
| Seqlock.RevisionCountsCommits | include/quadlink78/shared_state_board.hpp:73-83 | below 2^63 commits the revision word is twice the number of commits, plus one while another is under way, in every run with any writers dying |
| Seqlock.CommitsAreEvenRevisions | include/quadlink78/shared_state_board.hpp:73-83 | a payload is committed exactly when the word goes from odd to even, and the committed revisions are 2, 4, 6, and so on, on 64 bits |
| Seqlock.NeverDecreasesIffNoWrap | include/quadlink78/shared_state_board.hpp:73-83 | the revision word never decreases in a run if and only if the run has fewer than 2^63 commits |
| Seqlock.NothingChanged | include/quadlink78/shared_state_board.hpp:95-105 | if the same even revision is seen at two instants fewer than 2^63 commits apart, no word and no commit changed in between |
| Seqlock.ReadIsUntorn | include/quadlink78/shared_state_board.hpp:94-110 | loads of revision, size, payload words and revision at any non-decreasing instants of any run, with the same even nonzero revision twice, give the whole of the one payload committed under it, which was the latest throughout |
| Seqlock.LaterReadsRise | include/quadlink78/shared_state_board.hpp:96-109 | revisions returned by later reads are greater, so successive snapshots with a shared last revision rise |
| Seqlock.BoundIsTight | include/quadlink78/shared_state_board.hpp:73-74 | exactly 2^63 commits apart, the same revision stands over two different payloads |
| Seqlock.PackWordImage | include/quadlink78/shared_state_board.hpp:77-82 | a payload word holds its bytes in order and zeros behind them |
| SharedBoard.Memory.constructor | tools/go_relay/board.go:24-29 | the board starts with zeroed partitions and no writers |
| SharedBoard.Limits | include/quadlink78/shared_state_board.hpp:19-22 | eight partitions of 1088 bytes with 1024 bytes of payload, and three attempts |
| SharedBoard.Memory.Interfere | include/quadlink78/shared_state_board.hpp:71-72 | between two accesses of one process the writers of other partitions take any number of steps |
| SharedBoard.Board.Open | include/quadlink78/shared_state_board.hpp:31-59 | opening for writing succeeds exactly when the file opens and maps, the slot exists and the partition has no owner; on failure nothing has changed in the end; no shared word changes; an open handle only confirms its slot |
| SharedBoard.Board.Close | include/quadlink78/shared_state_board.hpp:61-65 | closing gives up the ownership and leaves the words as they are |
| SharedBoard.Board.Publish | include/quadlink78/shared_state_board.hpp:67-85 | succeeds exactly on an open writer and a size from 1 to 1024; then one more payload is committed and it is the latest, under the revision that counts it; otherwise nothing changes |
| Attempts.UndisturbedSucceeds | include/quadlink78/shared_state_board.hpp:94-112 | the same progress law in terms of one partition's run and a list of loads |
| Attempts.SuccessIsUntorn | include/quadlink78/shared_state_board.hpp:95-110 | what a complete attempt with an unchanged revision assembled was the latest payload from its first load to its last |
| Attempts.FailureHasReason | include/quadlink78/shared_state_board.hpp:94-112 | a call of either reader fails only if its last attempt loaded revision 0 or the known one, or an even revision and then a size that is 0, above 1024 or too large for the caller, or if it was the third of exactly three successive attempts that each loaded an odd revision or another one at the end |
| Attempts.OddIsTriedAgain | include/quadlink78/shared_state_board.hpp:95-97 | a call that first loads an odd revision other than the known one loads the revision again |
| SharedBoard.LoadsWereSeen | include/quadlink78/shared_state_board.hpp:95-105 | what a load of a call gave is what the word was at its instant, and loads happen in order |
| SharedBoard.TryRead | include/quadlink78/shared_state_board.hpp:95-110 | an attempt gives up exactly on what it loaded first or as size, tries again exactly on an odd or moved revision after loading everything in order, and otherwise returns the bytes of its own loads |
| SharedBoard.Board.Snapshot | include/quadlink78/shared_state_board.hpp:88-113 | the loads of the call are those of one to three attempts, all but the last disturbed, and it fails only if the last gave up or was the third to be disturbed; success returns the full bytes of the payload that was the latest throughout its last attempt, with its revision; failure changes nothing |
| SharedBoard.CollectPacket | tools/go_relay/inspect.go:138-141 | the loop reassembles whole words, each from its own instant, into a buffer rounded up to eight bytes |
| SharedBoard.ReadBoardSlot | tools/go_relay/inspect.go:123-147 | the same for the Go reader: one to three attempts by their loads; the revision returned, also on failure, is the one its last attempt loaded; success returns the payload that was the latest throughout that attempt |
| SharedBoard.UndisturbedAttemptSucceeds | include/quadlink78/shared_state_board.hpp:94-112 | in any call of either reader, an attempt during which no word changes succeeds whenever the partition is committed, new to the caller and fits, whatever the attempts before it met |
| SharedBoard.SettledIsRead | tools/go_relay/inspect.go:126-146 | a call during which a committed partition is left alone reads it at the first attempt |
| Crc32c.Table | include/quadlink78/relay_protocol.hpp:138-153 | entry i of the table is eight bit steps from i |
| Crc32c.TableStep | include/quadlink78/relay_protocol.hpp:159-161 | one table look-up is eight turns of the bit-serial register |
| Crc32c.Compute | include/quadlink78/relay_protocol.hpp:155-163 | for every length, the table-driven loop gives the complement of the bit-serial register over the message |
| Crc32c.RegisterIsLinear | include/quadlink78/relay_protocol.hpp:146-146 | the register over GF(2) is linear in start value and message together |
| CrcDivision.RegisterDivides | include/quadlink78/relay_protocol.hpp:142-147 | the reflected register is the dividend polynomial minus a multiple of the Castagnoli generator |
| CrcDivision.GeneratorIs | include/quadlink78/relay_protocol.hpp:142-142 | the generator is the Castagnoli polynomial, by its exponents |
| CrcDivision.ChecksumIsRemainder | include/quadlink78/relay_protocol.hpp:155-163 | the checksum is the reflected complement of the one remainder, of degree below 32, of that division |
| CrcBursts.StepIsInjective | include/quadlink78/relay_protocol.hpp:146-146 | two different 32-bit registers stay different under a bit step |
| CrcBursts.PassesIffResidue | include/quadlink78/relay_protocol.hpp:225-229 | a frame passes its check exactly when the register over payload and trailer ends in one constant |
| CrcBursts.NoSilentBurst | include/quadlink78/relay_protocol.hpp:155-163 | a difference pattern confined to 32 bits that leaves the register at zero is empty |
| CrcBursts.BurstDetected | include/quadlink78/relay_protocol.hpp:225-229 | two byte strings that both pass and differ only inside 32 consecutive bits, anywhere, trailer included, are equal |
| FrameCodec.EncodeHeader | include/quadlink78/relay_protocol.hpp:176-188 | the first 36 bytes become the header image, the rest of the buffer is untouched |
| FrameCodec.EncodeControlPacket | include/quadlink78/relay_protocol.hpp:237-249 | succeeds exactly with room for 40 bytes and a registration type; then the bytes are the sealed header image; otherwise nothing changes |
| FrameCodec.EncodeCommand | include/quadlink78/relay_protocol.hpp:251-271 | succeeds exactly with room; the packet is the image of the frame, and nothing behind it changes |
| FrameCodec.EncodeState | include/quadlink78/relay_protocol.hpp:273-292 | the same for states |
| FrameCodec.DecodeHeader | include/quadlink78/relay_protocol.hpp:190-235 | the error is the first failing check in order, and header and size are overwritten exactly as far as the checks got |
| FrameCodec.DecodeCommand | include/quadlink78/relay_protocol.hpp:294-320 | accepts exactly the strings AcceptsCommand describes and returns the frame they are the image of; a refused one leaves the motors alone |
| FrameCodec.DecodeState | include/quadlink78/relay_protocol.hpp:322-347 | the same for states |
| WireLayout.HeaderLayout | include/quadlink78/relay_protocol.hpp:176-188 | each header field at its place, with magic and version |
| WireLayout.ControlLayout | include/quadlink78/relay_protocol.hpp:237-249 | a control packet is 40 bytes: header with payload size 0, checksum |
| WireLayout.CommandLayout | include/quadlink78/relay_protocol.hpp:251-271 | a command frame is 328 bytes, with the six words of motor i from 36 + 24 * i on, and the checksum of the first 324 |
| WireLayout.StateLayout | include/quadlink78/relay_protocol.hpp:273-292 | a state frame is 280 bytes, with the five words of motor i from 36 + 20 * i on, and the checksum of the first 276 |
| WireLayout.HeaderErrorIs | include/quadlink78/relay_protocol.hpp:190-235 | the header decoder's error is that of the first failing check, by the numbers of the protocol |
| WireLayout.FrameErrorsAre | include/quadlink78/relay_protocol.hpp:294-347 | after the header, the frame decoders look at type and role, then at the size |
| Frames.SealedPasses | include/quadlink78/relay_protocol.hpp:246-246 | appending its checksum makes any body pass the check |
| Frames.CommandRoundTrip | include/quadlink78/relay_protocol.hpp:251-320 | an encoded command is accepted exactly when its type and role are the expected ones, and decodes to itself |
| Frames.AcceptedCommandIsImage | include/quadlink78/relay_protocol.hpp:251-320 | encoding what was decoded from an accepted string gives that string, bit for bit |
| Frames.StateRoundTrip | include/quadlink78/relay_protocol.hpp:273-347 | an encoded state is accepted exactly when its type and role are the expected ones, and decodes to itself |
| Frames.AcceptedStateIsImage | include/quadlink78/relay_protocol.hpp:273-347 | encoding what was decoded from an accepted string gives that string, bit for bit |
| RelayParser.AgreesWithDecoders | tools/go_relay/main.go:359-411 | for every byte string, Go accepts a command (state) exactly when the C++ decoder does and sequence and session are nonzero |
| RelayParser.AcceptedPacketsAreImages | tools/go_relay/main.go:359-411 | what Go accepts is exactly the images that the C++ encoders write of control, command and state frames with nonzero sequence and session |
| WireLayout.ValidationIs | tools/go_relay/main.go:359-411 | the Go validator's verdict is that of the first failing check; the role comes before the type, the checksum before the zero tests |
| ObservationCodec.EncodeObservation | include/quadlink78/observation_frame.hpp:24-46 | succeeds exactly for short names, a known type and finite values; the array is then the image of the observation; otherwise it is untouched, or holds the values before the offending one and zeros |
| ObservationCodec.DecodeObservation | include/quadlink78/observation_frame.hpp:47-64 | accepts exactly what AcceptsObservation describes and returns its content; on failure the fields are overwritten exactly as far as the checks got, up to and including the offending value |
| ObservationCodec.EncodeOdometry | include/quadlink78/odometry_frame.hpp:15-30 | succeeds exactly for short names and finite values; the array is then the image; otherwise untouched, or written up to the offending value |
| ObservationCodec.DecodeOdometry | include/quadlink78/odometry_frame.hpp:31-43 | accepts exactly what AcceptsOdometry describes and returns its content; otherwise nothing is overwritten, or all up to and including the offending value |
| Observations.FiniteByFields | include/quadlink78/observation_frame.hpp:39-39 | of sign, exponent and mantissa, only the exponent decides whether a value is finite: it must not be 2047 |
| Observations.FiniteIffNotSpecial | include/quadlink78/observation_frame.hpp:61-61 | the finite bit patterns are exactly those that are no infinity and no NaN of either sign |
| Observations.AcceptsObservationMeans | include/quadlink78/observation_frame.hpp:47-64 | an accepted observation, by size, magic, kind, checksum, terminators and the exponents of its ten values |
| Observations.AcceptsOdometryMeans | include/quadlink78/odometry_frame.hpp:31-43 | the same for odometry and its 85 values |
| Observations.EnvelopeLayout | include/quadlink78/observation_frame.hpp:30-44 | each field of an encoded frame at its place, names padded with zeros |
| Observations.ObservationRoundTrip | include/quadlink78/observation_frame.hpp:24-64 | every encoded observation is accepted, and decodes to itself exactly when neither name contains NUL |
| Observations.OdometryRoundTrip | include/quadlink78/odometry_frame.hpp:15-43 | the same for odometry |
| Observations.EncodeOfDecode | include/quadlink78/observation_frame.hpp:24-64 | a passing string with terminated names is the image of its content exactly when the bytes behind the terminators are zero |
| Observations.GoAcceptsMore | tools/go_relay/inspect.go:149-161 | the C++ decoders accept exactly those packets Go accepts whose names are terminated and whose values are finite |
| Observations.GoAcceptsUnterminatedName | tools/go_relay/inspect.go:149-161 | a packet with an unterminated name that Go accepts and both C++ decoders refuse |
| Observations.GoAcceptsInfinity | tools/go_relay/inspect.go:149-161 | a packet with terminated names and an infinite value that Go accepts and both C++ decoders refuse |
| ArchiveFormat.ParsedIsImage | tools/simkit/archive.go:93-114 | a record that the reader accepts is the image of itself followed by the rest |
| ArchiveFormat.StreamIffImage | tools/simkit/archive.go:92-137 | the analyser's loop accepts a stream with a record list exactly when the stream is the concatenated output of the writer for that list of valid records; the verifier's loop then finds the same list |
| ArchiveFormat.RecordLayout | tools/go_relay/record.go:36-50 | each field of a record at its place, with the digest of everything before it |
| ArchiveFormat.FaultIs | tools/simkit/archive.go:93-114 | why one record does not parse: too short, wrong header, or wrong digest |
| ArchiveFormat.MalformedIff | tools/simkit/archive.go:92-137 | the loop stops after n records exactly when the stream is the image of n records and then something that does not parse |
| Archive.AnalyzesIffVerifies | tools/go_relay/record.go:190-238 | the analyser accepts exactly what the verifier accepts with committed revisions, right format and right sizes |
| Archive.VerifiedButNotAnalyzed | tools/simkit/archive.go:102-104 | whatever the hash, an archive of one record with revision 1 and a matching manifest is verified and not analysed |
| Archive.VerifyRecord | tools/go_relay/record.go:190-238 | succeeds exactly on matching hash, prefix, well-formed stream and count; otherwise the error is that of the first failing check, with the number of the record |
| Archive.VerifyErrorIs | tools/go_relay/record.go:190-238 | when each error of the verifier is given; a wrong hash comes first |
| Archive.AnalyzeArchive | tools/simkit/archive.go:64-153 | succeeds exactly on a valid archive that matches the manifest, and otherwise fails with the first failing check; the report has one entry for each partition that occurs, with its exact counters, in order, and its figures add up |
| Archive.ReportIsExact | tools/simkit/archive.go:144-147 | the report lists exactly the partitions that occur, in ascending order, each with its exact figures |
| Archive.SelectHolds | tools/simkit/archive.go:115-118 | the records of a partition are exactly those that name it |
| Archive.GapsAndFalls | tools/simkit/archive.go:120-124 | rising or not, the skipped counter is the number of commits strictly between successive records, and the other the number of places where the revision does not rise |
| Archive.AnalyzeErrorIs | tools/simkit/archive.go:64-143 | when each error of the analyser is given; a wrong hash shows only in a well-formed stream |
| Archive.CountRecord | tools/simkit/archive.go:115-134 | one turn of the loop keeps the statistics table exact |
| Archive.CountsAddUp | tools/simkit/archive.go:126-135 | the records of the eight partitions are all records |
| Archive.PayloadsAddUp | tools/simkit/archive.go:127-136 | the payload bytes of the eight partitions are all payload bytes |
| Archive.ColumnsAddUp | tools/simkit/archive.go:126-144 | the record and payload counters of a report's entries add up, modulo 2^64, to all records and all payload bytes |
| Archive.ReportAddsUp | tools/simkit/archive.go:126-150 | in every report the entries' records add up to the record count, and 8 plus 48 per record plus the entries' payloads to the raw size, modulo 2^64 |
| Archive.RawBytesAddUp | tools/simkit/archive.go:90-136 | an accepted file is 8 bytes, 48 per record, and the payloads |
| Archive.SlotConservation | tools/simkit/archive.go:119-128 | with no non-increasing revision, recorded plus skipped are all commits from the first to the last |
| Recording.OverwritesAreGaps | tools/go_relay/record.go:113-121 | the overwrite counter is the sum over partitions of the gaps between fresh revisions |
| Recording.ExactOverwriteCount | tools/go_relay/record.go:118-120 | the overwrite counter is the number of commits, over all partitions, strictly between first and last observation that were never observed |
| Recording.FatesAddUp | tools/go_relay/record.go:122-135 | every fresh observation is rejected, dropped or enqueued, once |
| Recording.SkippedIsExplained | tools/go_relay/record.go:112-136 | what the analyser reports as skipped is at most overwritten plus invalid plus dropped |
| Recording.EverythingIsACommit | tools/go_relay/record.go:112-136 | overwritten plus observed never exceed the commits made, so no counter wraps below 2^63 commits |
| Recorder.FreshSampleFits | tools/go_relay/record.go:114-121 | a sample read under another revision than the remembered one is a later commit: the log stays faithful to the board and ascending |
| Recorder.Recorder.Sample | tools/go_relay/record.go:113-136 | logs a fresh observation exactly when the reader succeeded with another revision than the remembered one, which it then remembers; all counters stay exact; a partition that is settled during the call is always observed |
| Recorder.Recorder.Tick | tools/go_relay/record.go:112-137 | samples all eight partitions: each one that is settled during the tick is last observed under its revision |
| Recorder.Recorder.Observe | tools/go_relay/record.go:118-135 | counts what was missed, remembers the revision, rejects exactly invalid frames, and drops only when 128 items wait |
| Recorder.Recorder.Offer | tools/go_relay/record.go:131-135 | the item enters the queue last, or is counted as dropped when the queue is full, whatever the drain did before |
| Recorder.Recorder.Write | tools/go_relay/record.go:81-87 | the item taken is appended to the stream and counted; what was queued is still what is written, held or waiting, in order |
| Recorder.Recorder.Finish | tools/go_relay/record.go:139-142 | everything left in the queue is written, in order |
| Recorder.RecordBoard | tools/go_relay/record.go:53-170 | refuses exactly an empty output or non-positive times; otherwise the file is the image of the enqueued samples, the manifest has the counters of the log, the log is faithful to the board, samples are rejected exactly if the frame check of their partition fails, and in each of the ticks, one after the other, every partition that was settled was observed |
| Recorder.AcceptedByBoth | tools/go_relay/record.go:172-241 | both readers accept every finished recording and find the enqueued samples in it |
| Recorder.CountersAreExact | tools/go_relay/record.go:112-136 | below 2^63 commits, overwritten is exactly the missed commits, and records plus invalid plus drops is the number of fresh observations |
| Recorder.EndToEnd | tools/simkit/archive.go:119-125 | the report on such a recording has no non-increasing revision in any partition and no more skipped revisions than overwritten plus invalid plus drops |
| Relay.ParsedIsSound | tools/go_relay/main.go:379-397 | an accepted packet has a valid role and type that fit each other and nonzero sequence and session |
| Relay.NextNeverWraps | tools/go_relay/main.go:307-309 | where the code computes them, neither last sequence plus one nor the gap wraps |
| Relay.Relay.Register | tools/go_relay/main.go:264-284 | refreshes the lease of the same endpoint if the sequence rises, else counts it as old; any other registration replaces the endpoint |
| Relay.Relay.Unregister | tools/go_relay/main.go:286-295 | clears exactly the endpoint that asks, with a rising control sequence |
| Relay.Relay.AcceptData | tools/go_relay/main.go:297-314 | accepts exactly a rising sequence from the registered endpoint and adds the numbers left out to the gap counter |
| Relay.Relay.Route | tools/go_relay/main.go:316-325 | sends the packet to the active destination, or counts it as dropped |
| Relay.Relay.Expire | tools/go_relay/main.go:327-335 | exactly the endpoints silent for longer than the lease are cleared and counted |
| Relay.Relay.Handle | tools/go_relay/main.go:235-262 | each packet changes table, counters and output exactly as its verdict says |
| Relay.Relay.ActivePeers | tools/go_relay/main.go:349-357 | the number of active endpoints |
| RelayRuns.Provenance | tools/go_relay/main.go:249-314 | in every run a valid data frame is forwarded if and only if an earlier registration of the same role, address and session has not ended since and no accepted sequence of that tenure is as great |
| RelayRuns.SentWasForwarded | tools/go_relay/main.go:316-325 | every datagram sent is a forwarded frame, unchanged, and goes to the address of a registration of the other role that has not ended |
| RelayRuns.ExpiresIffSilent | tools/go_relay/main.go:327-335 | with a monotone clock, a tick ends a tenure if and only if everything that renewed its lease is longer ago than the lease |
| RelayRuns.GapsTelescope | tools/go_relay/main.go:307-312 | in every run the gap total is the sum over tenures of last minus first plus one minus the number accepted |
| RelayRuns.TenuresAscend | tools/go_relay/main.go:303-312 | the accepted sequences of each tenure ascend, so each term of that sum counts the numbers left out |
| RelayRuns.Conservation | tools/go_relay/main.go:235-357 | in every run registrations are active, replaced, unregistered or expired; forwarded frames are sent or dropped; each packet is counted once or renews a lease; endpoint 0 is never active |
| RelayRuns.CountersConserve | tools/go_relay/main.go:72-85 | the same equations of the 64-bit counters, modulo 2^64 |
| RelayLaws.RegisterLaw | tools/go_relay/main.go:264-284 | in every run a registration renews the tenure exactly if it comes from its address and session with a sequence above all registrations of the tenure; otherwise from that endpoint it only counts as old; from any other it begins a new tenure; the whole next state is given |
| RelayLaws.UnregisterLaw | tools/go_relay/main.go:286-295 | an unregistration ends the tenure exactly from the same address and session with a sequence above all its registrations, and otherwise counts as unauthorized |
| RelayLaws.DataLaw | tools/go_relay/main.go:249-325 | a data frame counts as unauthorized, as old, or is accepted, by the events before it; a command goes to the controller and a state to the guide, or is dropped |
| RelayLaws.InvalidLaw | tools/go_relay/main.go:236-243 | a packet that does not parse is only counted, twice if its checksum is wrong |
| RelayLaws.TickLaw | tools/go_relay/main.go:327-335 | a tick clears and counts exactly the endpoints whose time has run out |
| RelayLaws.ElapsedIsClosest | tools/go_relay/main.go:330-330 | the elapsed time is the 64-bit duration closest to the true one |
| RelayLaws.CountersAreTotals | tools/go_relay/main.go:72-85 | each counter of the program is the total of its name in the run so far, modulo 2^64 |
| Adapter.Validate | tools/simkit/adapter.go:45-62 | accepts exactly adapters with valid metadata, valid names, and no profile that sets the board variable |
| Adapter.ValidatedMeans | tools/simkit/adapter.go:45-62 | all the checks at once, with the required constants |
| Adapter.EnvNameMeans | tools/simkit/adapter.go:27-27 | the names that the pattern matches, by their alphabets |
| Adapter.Environment | tools/simkit/adapter.go:68-103 | fails exactly on an unknown profile; otherwise the result is the sorted rendering of the target environment, whatever order the maps are visited in |
| Adapter.EnvironmentMeans | tools/simkit/adapter.go:68-103 | variable by variable: the board and the selected profile have their values, every other name in clear_env or any profile is absent, everything else is inherited unchanged |
| Adapter.ParseMeans | tools/simkit/adapter.go:73-79 | a variable has the value of the last entry that starts with its name and an equals sign |
| Adapter.BeforeMeans | tools/simkit/adapter.go:97-97 | the order of keys: a proper prefix first, and otherwise by the first difference |
| Adapter.RenderingIsUnique | tools/simkit/adapter.go:93-101 | an environment has only one sorted rendering |
| Adapter.ParseOfRendering | tools/simkit/adapter.go:74-101 | parsing a rendering gives the environment back |
| Adapter.ManagedIsExact | tools/simkit/adapter.go:80-92 | of the managed variables exactly the board and the selected profile are set, to their values |
| Adapter.ManagedValuesDoNotMatter | tools/simkit/adapter.go:80-92 | the result does not depend on inherited values of managed variables |
| Adapter.Absorption | tools/simkit/adapter.go:68-103 | building an environment from one built before, for any profiles and boards, is building it from the original |

## Left out

- Relay.Relay.Register: requires a source address, because the code dereferences it; a registration from an unbound socket stops the original program.
- Recorder.RecordBoard: the drain never fails to write; the error paths of files, of compression and of the sidecar manifest are not modelled, nor are tickers, timers and signals, which become a number of ticks.
- Archive.AnalyzeArchive: the table of statistics holds values instead of references, and its entries are listed in order of partition instead of being collected in map order and sorted; the reduction fraction and the fixed texts of the report are left out.
- SharedBoard.Board.Open: whether the file opens and whether it maps with the right version word are inputs; the advisory lock is the condition that the partition has no owner.
- The order of checks of the original's file readers is kept, but gzip's own integrity check is not modelled, since compression is the identity.
- Weak memory: all shared accesses of the original are sequentially consistent, so steps interleave.
- Manifests as JSON text, hexadecimal digests, printing of metrics and reports, the board inspector's output.
- Sockets, deadlines and flags of the relay's main loop; a refused write is an input of each packet, and maintenance ticks come at any time.
- The supervisor of the toolkit and its robot description reader.
