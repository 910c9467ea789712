# Verified core of a remote-desktop client

This project models, in Dafny 4.11, the algorithms and protocols of a RustDesk client that are hard to
get right, and proves what they promise. `dafny verify dfyconfig.toml` checks all of it.

Every module states its results for all inputs, all chunkings, or all interleavings of events. Where
the source mutates state, the model has classes or loops, proved against functions about which the
properties are then shown.

| module | what it models |
|---|---|
| `AudioResampler` | The streaming linear resampler and the fixed-packet layer above it. Streaming equals batch for every chunking; the output is the interpolation of the input at exact rational positions. |
| `TransportRace` | The race between WebRTC and the other transports. Every run returns what an independent rule reads off the order of events. |
| `OffererOwnership`, `OffererAttempt` | Who may close the WebRTC offerer's peer connection, through both halves of a connection attempt, with cancellation at every await; then which connection the attempt returns. |
| `UdpPunch`, `PunchProtocol` | One end of the UDP hole punch with its probe schedule; then both ends over a network that loses, repeats and reorders. |
| `PlaybackBuffer` | The playback ring and its statistical shrinking. |
| `ChunkScan`, `GlibcScan` | File scanners that read in chunks and must agree with a scan of the whole file. |
| `Base64Url`, `ServerJson`, `ServerName`, `NameRoundTrip`, `NameExactness`, `CommaName` | Server settings encoded into a file name, and the parser that finds them there after browsers and file managers have renamed the file. |
| `Clipboard` | Clipboard synchronisation, whose owner marker keeps received content from being sent back. |
| `IceBridge` | The bridge that sends each ICE candidate, and sends it once more after a delay. |
| `OnlineStates` | The bitmap that answers a query for online peers. |
| `Arithmetic` | Facts about division and multiplication. |

How the outside world enters: time is an instant that comes with an event, or a function from the
number of a reading to its value. What a socket, a future, the system clipboard or a signature check
answers is an arbitrary event, outcome or function, and theorems hold for every choice of it. Audio
samples are reals.

Where the code and its own words differ, the model follows the code:

- The comment before `punch_udp` says that each end returns only on an answer to its own probe. The
  listener does not: it returns on the first datagram that is neither probe nor answer
  (`client/src/common.rs:2892-2894` against `2974-2979`). `PunchProtocol` proves what that asymmetry is
  good for.
- `try_shrink` means to find the fullest bucket. It clears bucket 0 before comparing with it, so the
  bottom bucket never is the fullest (`client/src/client.rs:2270-2281`). `IsPeak` says so, and
  `PlaybackBuffer.BottomBucketMeansNoDrop` that it makes no difference to what is dropped.
- The comment on `ClipboardSide` gives each side its own marker bit. `is_owner` accepts either
  (`client/src/clipboard.rs:605-619`).
- The name generator prints the prefix `rustdesk-custom_serverd-` (`client/src/naming.rs:24`), which is
  not a separator of the parser. `NameExactness.PrintedNameIsNotFound` shows that the parser finds
  nothing in what the generator prints; the round trips are about the separators it does know.
- The bail-out `WebRTC failed` in the race (`client/src/client.rs:277`) cannot be reached:
  `TransportRace.FailsIffAllFailed` shows that a failing race reports the last error as it is.
- The glibc scan carries 16 bytes over, which is exact for versions of up to nine digits.
  `GlibcScan.TenDigitsCanBeMissed` is a file of 2^20 + 1 bytes it gets wrong: its one version, of ten
  digits, has its last digit in the second read of 2^20 bytes.
- A relay that `connect` asks for is labelled `Relay` (`client/src/client.rs:1569`, `1608`) even when it
  runs over a WebSocket, which the relay round labels `WebSocket` (`client/src/client.rs:1141`, `1244`).
  `OffererOwnership.LabelNamesPathIff` says exactly which connections are returned under a label that
  does not name their path, and `WebSocketCalledRelay` gives such a run.
- `try_shrink` says that it does not drop when less than 600 ms are buffered
  (`client/src/client.rs:2284-2285`). It asks that the fullest bucket of the window be there, which may
  hold a minority of its levels, and not how much is buffered now. `PlaybackBuffer.DropsBelow600ms` is a
  window for which it does drop, and `WindowDropsBelow600msIff` says exactly for which windows it can.
- The marker that tells a peer's content from the user's is the last item of a write
  (`client/src/clipboard.rs:283-289`), so a write that stops part-way leaves content without it.
  `Clipboard.EchoIff` says exactly when that content is sent back, and `TornWriteEchoes` shows it.
- Outside ASCII a name can hold a separator and then fails to parse back.
  `NameExactness.FullNameRoundTripIff` says exactly when, and `FullwidthKeyFails` names a server.
- The marker scan never finds an empty marker in an empty file, although it occurs there.

## Model

| member | source | states |
|---|---|---|
| `AudioResampler.StreamingEqualsBatch` | client/src/audio_resampler.rs:165-218 | Every run of calls, whatever their sizes and however many were rejected, ends in the state, and has emitted the samples, that a closed form over the accepted input stream gives. |
| `AudioResampler.ChunkInvariance` | client/src/audio_resampler.rs:165-218 | Two ways to cut one stream into accepted calls give the same output and the same final buffer and position, also when downsampling steps past the end of the buffer. |
| `AudioResampler.SameAsOneCall` | client/src/audio_resampler.rs:165-218 | Any cutting equals one call on the whole input. |
| `AudioResampler.AdvanceSettled` | client/src/audio_resampler.rs:173-177 | From the settled state of any stream, one call appends exactly the frames that became due, and leaves the settled state of the longer stream. |
| `AudioResampler.WriteFramesEmits` | client/src/audio_resampler.rs:174-208 | Run on what is left in the buffer, the write loop emits exactly the outstanding frames of the stream, and stops at the position of the first frame that is not due. |
| `AudioResampler.CountExact` | client/src/audio_resampler.rs:193-200 | Frame `k` counts among floor((N-1)·out/in)+1 frames exactly when its position does not pass the last of N input frames. |
| `AudioResampler.ReadyIffCounted` | client/src/audio_resampler.rs:193-200 | The loop's guard lets a frame of the stream be written exactly when it is one of those counted. |
| `AudioResampler.OutputIsInterpolation` | client/src/audio_resampler.rs:193-209 | After any run there are exactly that many frames, and every channel of frame `k` is the linear interpolation, at `k`·in/out, of the samples of that channel in the input stream. |
| `AudioResampler.EqualRatesGiveTheInput` | client/src/audio_resampler.rs:165-218 | At equal rates the output of every run is its accepted input, sample by sample. |
| `AudioResampler.RunIsBounded` | client/src/audio_resampler.rs:211-218 | After every call at most one frame is buffered, and the position is below the larger of the two rates. |
| `AudioResampler.PeakIsBounded` | client/src/audio_resampler.rs:174-176 | Within a call the position exceeds the product that the capacity check has bounded by at most one step. |
| `AudioResampler.CapacitySuffices` | client/src/audio_resampler.rs:181-191 | No call in any run emits more samples than it reserved. |
| `AudioResampler.AcceptsIff` | client/src/audio_resampler.rs:165-191 | A call is accepted if and only if its input is whole frames and neither the position the frames are worth nor the samples to reserve exceed 64 bits; an incomplete frame is the first complaint. |
| `AudioResampler.PacketsAreSplitOutput` | client/src/audio_resampler.rs:77-91 | In every run the packets delivered and the samples pending are the batch output cut into packets, so neither depends on the chunking. |
| `AudioResampler.PacketConservation` | client/src/audio_resampler.rs:77-91 | Packets delivered, followed by the samples pending, are the resampler's output; every packet has the full size and less than one packet is pending. |
| `AudioResampler.PacketSize` | client/src/audio_resampler.rs:49-75 | The packet layer is built for exactly the usable configurations and positive packets whose buffers can be measured; each bad argument has its own error, and the six overflow checks amount to three. |
| `AudioResampler.DivCeilIsLeast` | client/src/audio_resampler.rs:49-75 | The input frames reserved for a packet are the fewest that are worth its output frames. |
| `AudioResampler.CutPackets` | client/src/audio_resampler.rs:84-89 | The packet loop hands out the whole packets in order and keeps the rest. |
| `AudioResampler.StreamingLinearAudioResampler.WriteNextFrame` | client/src/audio_resampler.rs:193-209 | Writes if and only if the position lies on or between available frames, and then appends that frame on every channel. |
| `AudioResampler.StreamingLinearAudioResampler.DiscardConsumedFrames` | client/src/audio_resampler.rs:211-218 | Drops the frames that were passed, no more than there are, and lowers the position by as much without going below zero. |
| `AudioResampler.StreamingLinearAudioResampler.ProcessInto` | client/src/audio_resampler.rs:165-179 | One call does what the model of a call says; a rejected input changes nothing and names the first check it failed. |
| `AudioResampler.FixedFrameAudioResampler.ProcessWith` | client/src/audio_resampler.rs:77-91 | One call of the packet layer does what the model says, on both objects. |
| `TransportRace.RunFollowsVerdict` | client/src/client.rs:235-337 | In every run the loop's variables mean what they should, and the race has returned exactly when, and exactly what, a rule on the order of events says. |
| `TransportRace.RelayWaits` | client/src/client.rs:221-338 | A relayed result is returned only if every attempt has finished, or the full window has passed since the first relayed result, which is then the one returned. |
| `TransportRace.WindowRunsFromFirstRelay` | client/src/client.rs:252-260 | The window is open exactly while a result is held, and runs from the first relayed result; later ones do not restart it. |
| `TransportRace.WindowElapsesIff` | client/src/client.rs:330-335 | While the race is on, the window can elapse if and only if a relayed result has arrived, and from the instant of the first one plus the window on. |
| `TransportRace.DirectWinsAtOnce` | client/src/client.rs:244-247 | A direct result ends the race the moment it is processed, and is returned. |
| `TransportRace.FailsIffAllFailed` | client/src/client.rs:261-328 | The race fails if and only if every attempt failed, and reports the last error as it is. |
| `TransportRace.NeverStuck` | client/src/client.rs:235-337 | While the race is on, some attempt is unfinished and the arm that waits for it is enabled. |
| `TransportRace.RunIsBounded` | client/src/client.rs:235-337 | A run processes no more events than there are attempts; while it goes on, each event has used one up. |
| `TransportRace.Select` | client/src/client.rs:235-337 | One turn of the loop, on its own variables, is one step of the modelled race. |
| `TransportRace.RaceTransports` | client/src/client.rs:227-338 | The loop over any feasible order of events returns what the rule says. |
| `OffererOwnership.StepConserves` | client/src/client.rs:822-1649 | The code between any two awaits keeps the account of the peer connection: one guard or one close. |
| `OffererOwnership.OpenMeansGuarded` | client/src/client.rs:191-213 | At every await of every run the peer connection is under exactly one armed guard, or was closed exactly once; it never hangs on a bare handle. |
| `OffererOwnership.OffererConservation` | client/src/client.rs:822-1649 | However an attempt ends, the peer connection was closed exactly once, unless it is the transport returned, and then never. |
| `OffererOwnership.CancellationCloses` | client/src/client.rs:191-213 | Dropping the attempt at any await closes the peer connection if it is open. |
| `OffererOwnership.DirectFlagIsTruthful` | client/src/client.rs:1298-1649 | A connection is returned as direct only if no relay carries it, also after a relay replaced a failed handshake; a WebRTC one that `connect` returns as direct was found not relayed in the race and again after the handshake. It is labelled WebRTC exactly if it is WebRTC. |
| `OffererOwnership.LabelNamesPathIff` | client/src/client.rs:1545-1612 | In every run that returns a connection, the label names its path if and only if it is not a relay that `connect` asked for over a WebSocket. |
| `OffererOwnership.WebSocketCalledRelay` | client/src/client.rs:1545-1570 | An attempt that was punched, found no direct path and asked for a relay returns a WebSocket under the label `Relay`. |
| `OffererAttempt.AttemptFollowsStory` | client/src/client.rs:822-1649 | For every sequence of replies and cancellations, the attempt waits, ends and returns exactly as a story says that knows neither guards nor handles: who wins each race, when a relay takes its place, and what a failed handshake falls back on. |
| `OffererAttempt.RelayRequestedIff` | client/src/client.rs:1545-1574 | In every run, the race in `connect` gives way to a relay if and only if it failed, or a relay is forced and the winner is not WebRTC, and a relay server is known; without one the attempt fails, and otherwise the winner goes on. |
| `OffererAttempt.DirectWinnerReturned` | client/src/client.rs:1545-1649 | In every run without a forced relay, a direct winner whose handshake succeeds is the connection returned, as direct and under its own label. |
| `UdpPunch.TidIffPacket` | client/src/common.rs:2878-2890 | A datagram reads as a transaction id under a tag if and only if it is the packet built from them. |
| `UdpPunch.PacketBytes` | client/src/common.rs:2878-2883 | A packet is its tag and then the digits of the id to the base 256, the lowest first. |
| `UdpPunch.Select` | client/src/common.rs:2938-2984 | One turn of the punch loop is one step of the modelled end, with the datagrams it sends. |
| `UdpPunch.LoopEndsIff` | client/src/common.rs:2938-2984 | In every trace the loop has timed out, confirmed on an answer or confirmed on data if and only if its last event is the deadline, the answer to its own probe at a connector, or a datagram that is neither empty nor a probe nor an answer. |
| `UdpPunch.TimesOutIff` | client/src/common.rs:2940-2942 | In every trace the loop has timed out if and only if the deadline is its last event. |
| `UdpPunch.LoopCounts` | client/src/common.rs:2943-2973 | While the loop runs, its counters are the probes received, the failed receives and the probes sent, and it has noted whether its own probe was answered. |
| `UdpPunch.SendsIff` | client/src/common.rs:2943-2973 | One event makes an end send its probe when that is due, the answer to a probe that it received, and nothing else. |
| `UdpPunch.ScheduleInvariant` | client/src/common.rs:2918-2948 | Whatever arrives, the interval after `k` timed probes is the `k`-th of the backoff, and the next probe is no earlier than the sum of the intervals so far. |
| `UdpPunch.IntervalBounds` | client/src/common.rs:2946-2946 | The intervals never shrink, stay between 20 and 200 ms, and are 200 ms from the seventh on. |
| `UdpPunch.ProbesByDeadline` | client/src/common.rs:2928-2948 | At most eighteen timed probes, nineteen with the first, fall at or before the deadline of 3 s, whatever the peer sends. |
| `UdpPunch.UpToEighteenFit` | client/src/common.rs:2928-2948 | The bound is reached: a loop that hears nothing and whose timers are on time sends any number of timed probes up to eighteen by the deadline. |
| `UdpPunch.ProbesApart` | client/src/common.rs:2943-2948 | Two timed probes are at least the interval apart that was in force after the first of them. |
| `PunchProtocol.EveryRunIsSafe` | client/src/common.rs:2908-2985 | The invariant of both ends and of everything on the wire holds in every run over a lossy, repeating, reordering network. |
| `PunchProtocol.WireKeeps` | client/src/common.rs:2908-2985 | Whatever is sent stays where its receiver may find it, so a datagram can come once, again or never. |
| `PunchProtocol.DeadlineKept` | client/src/common.rs:2935-2942 | In every run an end in its loop has its deadline three seconds after it entered, whatever arrived since. |
| `PunchProtocol.RunningEndTimesOut` | client/src/common.rs:2940-2942 | In every run an end in its loop can see its deadline from three seconds after it entered on, and not before, and then times out. |
| `PunchProtocol.ConnectorConfirmsRoundTrip` | client/src/common.rs:2961-2968 | A connector that succeeded returned no data, its probe reached the listener and an answer to it came back. |
| `PunchProtocol.ListenerStopsAfterConnector` | client/src/common.rs:2902-2907 | A listener that succeeded did so after the connector, on a datagram the connector sent once it had succeeded. |
| `PunchProtocol.ListenerKeepsAnswering` | client/src/common.rs:2902-2907 | While the connector probes, a listener that has not timed out is in its loop, and answers the probe. |
| `PunchProtocol.PunchCanComplete` | client/src/common.rs:2892-2985 | From every reachable point with both ends in their loops, a delivery each way and one datagram of data confirm both. |
| `PlaybackBuffer.FindWaterMarks` | client/src/client.rs:2266-2282 | The in-place pass over the histogram finds the lowest bucket in use and the first of the fullest above the bottom one, and leaves only the latter uncleared. |
| `PlaybackBuffer.SettleDrop` | client/src/client.rs:2282-2303 | The arithmetic of a decision gives the modelled drop for any two water marks. |
| `PlaybackBuffer.DecisionIff` | client/src/client.rs:2266-2303 | For any window and any fill: there is a drop if and only if the lowest bucket in use is at 200 ms or more, the peak at 600 ms or more, and the even amount they call for is positive and less than a third of what is buffered; and then it is that amount. |
| `PlaybackBuffer.MoreBufferedSameDrop` | client/src/client.rs:2298-2303 | What is dropped from one fill is dropped from every larger one. |
| `PlaybackBuffer.DropConditions` | client/src/client.rs:2282-2303 | In terms of the two water marks: a drop is even, leaves more than twice as much, and needs the lowest bucket in use above the two lowest and the peak at 600 ms or more. |
| `PlaybackBuffer.DropsBelow600ms` | client/src/client.rs:2284-2303 | After levels of 200, 600, 600 and 400 ms, the last of them still buffered, a decision drops 100 ms. |
| `PlaybackBuffer.DropsBelow600msIff` | client/src/client.rs:2284-2303 | For any water marks and any rate: some buffer with less than 600 ms is dropped from if and only if the drop they call for, three times over, stays below 600 ms. |
| `PlaybackBuffer.AllowsLowDropIff` | client/src/client.rs:2284-2303 | From a rate of 55 samples on, that is so if and only if the peak is at 600 ms or more and the lowest bucket in use is that of 200 ms, or above it with the peak below 800 ms, or rounding lets a mark of exactly 800 ms pass. |
| `PlaybackBuffer.WindowDropsBelow600msIff` | client/src/client.rs:2243-2305 | The same of a window and its decisions: it can lead to a drop from less than 600 ms if and only if its own water marks call for one. |
| `PlaybackBuffer.BottomBucketMeansNoDrop` | client/src/client.rs:2270-2282 | A window that uses the bottom bucket calls for no drop, whatever its peak. |
| `PlaybackBuffer.DropIsSafe` | client/src/client.rs:2243-2305 | Across any change of rate: a drop is even, leaves more than twice as much, happens only if no level of the window was in the two lowest buckets and the fullest bucket is at 600 ms or more, and, measured in time, is at most two thirds of every level recorded, plus one sample. |
| `PlaybackBuffer.DropIsSafeAtOneRate` | client/src/client.rs:2243-2305 | With the rate unchanged, a drop is at most two thirds of the lowest level recorded, plus one sample. |
| `PlaybackBuffer.DecisionUnique` | client/src/client.rs:2266-2303 | The window and what is buffered settle the drop. |
| `PlaybackBuffer.AudioBuffer.Resize` | client/src/client.rs:2233-2241 | The capacity stays three seconds of the rate; a new rate empties the ring and keeps the window. |
| `PlaybackBuffer.AudioBuffer.AppendPcm2` | client/src/client.rs:2317-2333 | The ring keeps the newest three seconds of all that was appended, and a discard is signalled if and only if something did not fit. |
| `PlaybackBuffer.AudioBuffer.TryShrink` | client/src/client.rs:2243-2305 | A decision is taken at most every twelve seconds of a clock that all buffers share, drops exactly what the window calls for from the front, signals it, and leaves the histogram all zero. |
| `PlaybackBuffer.AudioBuffer.AppendPcm` | client/src/client.rs:2338-2341 | One arrival appends, records the level and drops as decided; each of the two losses is signalled once, and the shared clock moves only as a decision or a first record moves it. |
| `ChunkScan.CarriesMarker` | client/build.py:802-814 | The loop finds the marker if and only if some window shows it whole, for any marker and any chunks. |
| `ChunkScan.SliceExact` | client/build.py:802-814 | A tail cut by a negative start is that many bytes of the end, or all there are; one cut by a start of zero, as for a marker of one byte, is the whole chunk. |
| `ChunkScan.MarkerScanExact` | client/build.py:802-814 | Unless a chunk before the last is shorter than the marker less one byte, the scan agrees with the whole file, except for an empty marker in an empty file. |
| `ChunkScan.FileScanExact` | client/build.py:802-814 | Read by 2^20 bytes, any file carries any marker up to that length and a byte exactly when the scan says so. |
| `GlibcScan.SearchBuffer` | client/build.py:685-686 | Searching on from the end of each match finds the highest version in a buffer. |
| `GlibcScan.NumberOfDecimal` | client/build.py:685-686 | A number written in decimal is read as that number. |
| `GlibcScan.DecimalOfNumber` | client/build.py:685-686 | Digits without a leading zero are those of the number they are read as, so no other byte counts as a digit. |
| `GlibcScan.MaxMinorUnique` | client/build.py:675-687 | Every file names exactly one highest version, counting none as 0. |
| `GlibcScan.MaxGlibcMinor` | client/build.py:675-687 | The loop returns the highest version that any window names. |
| `GlibcScan.ScanExactIff` | client/build.py:675-687 | For any file and chunks, the scan never reports more than the file names, and it is exact if and only if a window shows some place that names the highest to its end. |
| `GlibcScan.GlibcScanExact` | client/build.py:675-687 | With chunks of at least 16 bytes before the last and versions of at most nine digits, the scan is exact. |
| `GlibcScan.FileGlibcExact` | client/build.py:675-687 | Read by 2^20 bytes, any file whose versions have at most nine digits is measured exactly. |
| `GlibcScan.TenDigitsCutAtBoundary` | client/build.py:675-687 | Ten digits are one too many wherever the last of them falls into the next chunk. |
| `GlibcScan.TenDigitsCanBeMissed` | client/build.py:675-687 | A file that, read by 2^20 bytes, is such a one. |
| `Base64Url.DecodeEncode` | client/src/naming.rs:9-9 | Decoding an encoding gives the bytes back. |
| `Base64Url.AlphabetInOrder` | client/src/naming.rs:9-9 | The characters are those of the URL-safe alphabet of section 5 of RFC 4648, in its order. |
| `Base64Url.GroupValue` | client/src/naming.rs:9-9 | The sextets of one to three bytes are the digits to the base 64 of the number those bytes make, filled up with zero bits. |
| `Base64Url.DashPositions` | client/src/naming.rs:9-9 | In the encoding of ASCII bytes a dash stands only at an index that is 3 modulo 4. |
| `ServerJson.PrintReads` | client/src/custom_server.rs:12-22 | Reading the printed form of any four strings gives them back. |
| `ServerJson.PrintReadsIff` | client/src/custom_server.rs:34-36 | With anything behind it, the printed form reads as the same server if that is spaces, and as nothing otherwise. |
| `ServerJson.PrintIsShortest` | client/src/custom_server.rs:12-22 | No text shorter than the printed one reads as the same server, if its fields are all filled. |
| `ServerJson.PrintFormat` | client/src/custom_server.rs:12-22 | The printed form has the four fields under their names, in the order of the record. |
| `ServerJson.OtherMembers` | client/src/custom_server.rs:34-36 | A member that is no field is passed over, and a field given twice is an error. |
| `ServerJson.SpacesSkipped` | client/src/custom_server.rs:34-36 | Exactly blanks, tabs, line feeds and carriage returns are passed over between tokens. |
| `ServerJson.Utf8Value` | client/src/custom_server.rs:34-36 | An escape stands for the UTF-8 bytes of its code point, from which the code point can be computed. |
| `ServerJson.HexDigitIff` | client/src/custom_server.rs:34-36 | A character counts as a hexadecimal digit if and only if it is that digit in lower or upper case. |
| `ServerJson.EscapeReads` | client/src/custom_server.rs:34-36 | Four hexadecimal digits after `\u` are read as the number they make, the most significant first. |
| `ServerName.ReadTokens` | client/src/custom_server.rs:71-92 | The token loop sets each setting to what the last token with its prefix says. |
| `ServerName.ReadParts` | client/src/custom_server.rs:98-110 | The nested loops return the first part, or piece of a part, that is a server. |
| `ServerName.ParseFileName` | client/src/custom_server.rs:44-113 | The parser returns what the specification of a file name says. |
| `NameRoundTrip.NameParses` | client/src/custom_server.rs:24-36 | On its own, a generated name parses to its server, whatever bytes the fields hold. |
| `NameRoundTrip.EncodedParses` | client/src/custom_server.rs:24-41 | Any bytes, encoded and reversed, are read as a server themselves; if they are none, what the signature check makes of them is read, if it takes them. |
| `NameRoundTrip.TrimExact` | client/src/custom_server.rs:100-105 | Trimming takes whitespace and nothing else off both ends, and leaves none there. |
| `NameRoundTrip.LowerLetters` | client/src/custom_server.rs:64-73 | Of the ASCII characters, lowering moves the capital letters to their small ones and changes no other. |
| `ServerName.WhitespaceExact` | client/src/custom_server.rs:100-105 | What is trimmed are the twenty-five characters with the Unicode property White_Space. |
| `NameRoundTrip.NameDashes` | client/src/naming.rs:8-11 | In the name of a server with ASCII fields any two dashes are a multiple of four apart. |
| `NameRoundTrip.DashesApartIsClean` | client/src/custom_server.rs:94-98 | Text with such dashes holds neither `--` nor `-licensed-`. |
| `NameRoundTrip.ReplaceConcat` | client/src/custom_server.rs:94-97 | Replacing in two texts joined is replacing in each, unless an occurrence straddles them. |
| `NameRoundTrip.SeparatedAround` | client/src/custom_server.rs:94-97 | The three replacements turn any of the separators into `--`, and go on separately before and after it. |
| `NameRoundTrip.PartsAround` | client/src/custom_server.rs:94-98 | The parts of a file name are those of the text before a separator, then those of the text after it. |
| `NameRoundTrip.DecoratedParses` | client/src/custom_server.rs:99-109 | A name followed by spaces and counters in parentheses parses as a part. |
| `NameRoundTrip.ExtensionStripped` | client/src/custom_server.rs:45-51 | An extension, in any case and possibly doubled, is all that is cut off, if and only if no other stands before it or it is the doubled one. |
| `NameRoundTrip.CleanNameRoundTrip` | client/src/custom_server.rs:44-113 | For fields of any bytes: a name in which neither separator occurs parses back after any text that names no host, holds no server and does not end in part of a separator, then any separator; and before any decoration, anything behind `--` that names no host and has no extension of its own, and an extension. |
| `NameRoundTrip.AsciiNameRoundTrip` | client/src/custom_server.rs:94-111 | For every server with ASCII fields, its name after `rustdesk` and any of the four separators parses back, decorated or not. |
| `NameRoundTrip.BareNameRoundTrip` | client/src/custom_server.rs:94-111 | So does such a name with nothing before it, as it is given on the command line. |
| `NameRoundTrip.PaddedNameParses` | client/src/custom_server.rs:31-33 | Equals signs before a name are accepted if and only if they are the padding its length calls for. |
| `NameExactness.FullNameRoundTripIff` | client/src/custom_server.rs:94-111 | For every server whose fields are all filled, with any bytes, and any signature check whose texts are no longer than what was signed: the name after any separator parses back if and only if neither separator occurs in it. |
| `NameExactness.UncleanIsCut` | client/src/custom_server.rs:94-98 | Text that holds a separator is cut by the replacements and the split, wherever the separator is. |
| `NameExactness.FullwidthKeyFails` | client/src/custom_server.rs:94-111 | A key with a fullwidth character, whose encoding holds two dashes in a row, does not parse back. |
| `NameExactness.DecodeEncodeThen` | client/src/custom_server.rs:31-33 | Decoding an encoding with the generator's prefix right behind it gives the bytes encoded and then a byte that no JSON text can go on with. |
| `NameExactness.PrintedNameIsNotFound` | client/src/naming.rs:24-24 | For every server whose name holds no separator, the file name that the generator prints parses to nothing, unless the decoded text passes for a signed one. |
| `CommaName.SplitJoin` | client/src/custom_server.rs:66-66 | Splitting tokens joined with commas gives the tokens. |
| `CommaName.SplitMerge` | client/src/custom_server.rs:66-66 | Splitting two texts joined gives the pieces of both, the two at the seam made one. |
| `CommaName.CommaRoundTripIff` | client/src/custom_server.rs:52-93 | Settings without commas, written out with a final comma, parse back whatever counter and extension follow, if and only if the text before them names no host, or ends its own settings with a comma, or says the same of the host. |
| `Clipboard.AppendMarks` | client/src/clipboard.rs:283-289 | Whatever is written for a peer, on either side, is recognised as this program's. |
| `Clipboard.MarkedIsSilent` | client/src/clipboard.rs:399-428 | A marked clipboard gives an unforced check nothing to send. |
| `Clipboard.ReadableHasNoMarker` | client/src/clipboard.rs:418-427 | A message never carries the marker on. |
| `Clipboard.WhatIsRead` | client/src/clipboard.rs:386-428 | Of a clipboard that may be read, exactly these are read: texts that are not empty, HTML, RTF, pictures and spreadsheets; and nothing if it holds files and files can be copied. |
| `Clipboard.OwnerBits` | client/src/clipboard.rs:605-619 | Marker data is this program's if and only if one of the two lowest bits of its first byte is set, and each side sets another one. |
| `Clipboard.NoEchoUnlessTorn` | client/src/clipboard.rs:259-289 | In every interleaving of copies, checks, deliveries and failed writes on any number of machines, an unforced message carries what a user of the sending machine copied there, or else what can be read of the first items of a delivered message or of a text the program set, whose write stopped part-way. |
| `Clipboard.NoEcho` | client/src/clipboard.rs:259-289 | If no write stops part-way, it carries what a user of the sending machine copied there. |
| `Clipboard.EchoIff` | client/src/clipboard.rs:399-428 | In every reachable world a check passes on what this program wrote if and only if there is something to read and the check is forced or the write stopped part-way. |
| `Clipboard.TornWriteEchoes` | client/src/clipboard.rs:259-289 | A text delivered by a write that stops before its marker is sent back by the next unforced check. |
| `Clipboard.QuietUntilCopy` | client/src/clipboard.rs:399-428 | From a write for a peer until the next copy by its user, or the next write that stops part-way, a machine sends nothing unforced. |
| `Clipboard.CopyArrives` | client/src/clipboard.rs:250-281 | A copy that is checked and delivered leaves the other clipboard with its content and the marker, from where it is not sent on. |
| `Clipboard.TransferExact` | client/src/clipboard.rs:718-775 | Every format but files arrives as it was, and a picture of pixels if and only if its dimensions are positive, fit 31 bits and account for its pixels; files never arrive. |
| `Clipboard.TransferAllExact` | client/src/clipboard.rs:731-782 | Content of which every format arrives unchanged arrives as it was, in order. |
| `Clipboard.GetFormats` | client/src/clipboard.rs:353-384 | Three attempts: the first that does not meet an occupied clipboard decides. |
| `Clipboard.FilterFormats` | client/src/clipboard.rs:399-428 | The two passes return nothing for a marked clipboard, unless forced, and otherwise all but the marker and empty texts, in order. |
| `Clipboard.ClipboardContext.Update` | client/src/clipboard.rs:250-281 | An update leaves marked content, or what a failed write leaves; an empty one changes nothing. |
| `Clipboard.ClipboardContext.Get` | client/src/clipboard.rs:386-397 | A read gives what may be sent, and nothing if files are among it. |
| `IceBridge.SwapRemoveTakesOne` | client/src/client.rs:740-740 | Taking an entry out by putting the last in its place removes that entry once and no other. |
| `IceBridge.SentOnceOrTwice` | client/src/client.rs:692-755 | The account of the bridge implies that each candidate is sent once or twice, once exactly while it waits, and that nothing else is sent. |
| `IceBridge.SweepEnds` | client/src/client.rs:737-755 | A sweep that comes to its end has looked at every entry once, and keeps exactly those it found not due. |
| `IceBridge.AllDueMeansTwice` | client/src/client.rs:735-755 | When a sweep found every entry due, each candidate received has been sent exactly twice. |
| `IceBridge.Bridge.Forward` | client/src/client.rs:702-724 | Each candidate is sent at once, in order, and kept with the instant after the send; a failed send ends the bridge. |
| `IceBridge.Bridge.Sweep` | client/src/client.rs:735-755 | Every entry is looked at once, with its own reading of the clock; exactly those at least 400 ms old are taken out and sent again, in the order they were found; if that was all of them, each candidate received has been sent exactly twice. |
| `IceBridge.Bridge.Loop` | client/src/client.rs:692-755 | Over any number of rounds, ended anywhere, each candidate received is sent at least once and at most twice. |
| `OnlineStates.Decode` | client/src/client.rs:5391-5412 | An answer with fewer bits than ids is an error; any other splits the ids by their bits, in order. |
| `OnlineStates.OnlineIsDigit` | client/src/client.rs:5403-5407 | Id `i` is online if and only if binary digit `i` modulo 8 of byte `i`/8, counted from the most significant, is 1. |
| `OnlineStates.ChosenPartition` | client/src/client.rs:5401-5412 | Each position is in exactly one of the two lists, and together they are as long as the ids. |
| `OnlineStates.PositionsExact` | client/src/client.rs:5401-5412 | A list takes exactly the positions that are flagged so, in ascending order. |
| `OnlineStates.BitmapRoundTrip` | client/src/client.rs:5403-5407 | Reading a bitmap of any online set, with anything after it, gives that set. |

## Left out

- Sockets, the async runtime, KCP, TLS, WebRTC and HTTP: they are only the source of events.
- Cryptography: a signature check is any function of bytes. `AsciiNameRoundTrip` assumes only that it rejects what is shorter than a signature, and `FullNameRoundTripIff` that what it returns is no longer than what it was given.
- Rounding of floating-point numbers: samples and weights are reals, and the punch interval grows by exactly one half.
- The sinc resampler, `audio_resample` and `audio_rechannel`: they defer to libraries.
- Wrap-around of the resampler's 64-bit position: `PeakIsBounded` says how close it could come; the model's position does not wrap. Counters that are only logged are not modelled.
- `OffererOwnership`: the guard is modelled on values, as a machine over awaits; dropping the attempt's future before it is first polled is not a step.
- `PlaybackBuffer.AudioBuffer.TryShrink`: asks for a positive rate, because the code divides by it; so does `AppendPcm`, which calls it. `Resize` takes any rate.
- `Clipboard.ClipboardContext.Set`: a write that fails keeps the clipboard, empties it, or leaves the first items; other remains are not modelled. Compression is taken to be undone exactly.
- `GlibcScan.MaxGlibcMinor`: Python's limit on the length of a number is not modelled.
- `ServerJson.PrintReads`: the reader knows objects whose values are strings; other values, arrays, surrogate escapes and the check that bytes are UTF-8 are not modelled.
- `CommaName.CommaRoundTripIff`: takes settings as the text of the file name, where the encoded form has them as UTF-8 bytes; for ASCII the two are the same.
- `NameRoundTrip.CleanNameRoundTrip`: goes one way. The other way is `NameExactness.FullNameRoundTripIff`, for servers whose fields are all filled; with an empty field a shorter text can read as the same server, so the length of what a separator leaves no longer decides.
- `IceBridge.Bridge.Loop`: messages from the peer, which the loop also reads, and the retry of the online query have no part in what is proved.
- Synchronisation of copied files, the option toggles, the session map, translations, packaging and the server crate would only add easy members.
