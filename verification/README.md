# A verified model of the media and signalling paths of OHMComm

OHMComm is a peer-to-peer voice-over-IP program. This project models the parts of it that hold state or
translate between values and bytes or text, and proves what they promise. Run
`dafny verify dfyconfig.toml` to check all of it.

| part | files |
|---|---|
| the jitter buffer: a ring of slots, its window specification, the map it refines, whole runs, losses | `Jitter*.dfy` |
| RTCP packages: bytes, round trips, compound packages, runs that send and receive in one buffer (RFC 3550 section 6) | `Rtcp*.dfy` |
| SIP messages: fields, whole messages, compact names (RFC 3261 section 7) | `Sip*.dfy` |
| session descriptions: offers and format parameters written and read back (RFC 4566 section 5) | `Sdp*.dfy` |
| extended sequence numbers (RFC 3711 section 3.3.1) | `ExtendedSequence.dfy` |
| G.711 companding, and the processors that do it within a buffer | `Companding.dfy`, `G711.dfy` |
| conversion of sample rates within a buffer | `Resampler.dfy`, `ResamplerValues.dfy` |
| the buffer size a chain of processors agrees on | `BufferSize.dfy` |
| discontinuous transmission | `DtxSender.dfy` |
| shared words, bits and texts | `Words.dfy`, `Bits.dfy`, `Wrappers.dfy`, `Trimming.dfy`, `Text.dfy`, `UriEscapes.dfy` |

Code that changes state is a class or a method with the loops and widths of the source, proved equal to a
specification function on values; the theorems are about those functions, over every input or every run.
The methods of the jitter buffer that hold its mutex are atomic steps. Time is a number given to each step, and the
play-out threshold is any number, because nothing proved depends on it.

## What the code does differently from what it says

The model follows the code. For each of these the exact condition is proved, and inputs or runs that the code can meet
are given where the condition itself does not name them.

- The jitter buffer counts overwritten and expired packages as occupied for ever (`JitterOccupancy`): a reader that
  is always too late exhausts it, and an exhausted buffer never takes or gives a package again. A buffer is exhausted
  exactly when as many packages were overwritten or expired as it has places (`ExhaustedExactly`,
  `ExhaustionReachable`).
- The search for a playable package never visits the last slot of the ring, so that a package stored there is not
  found (`JitterRefinement.UnscannedSlot`); reading refines the map exactly when that slot is not needed
  (`JitterRefinement.ReadRefines`).
- A package with the marker bit restarts the numbering without clearing the ring; the older packages keep their
  places, at wrong keys, unless there are none or the number stays the same (`JitterRefinement.ResetRefines`,
  `JitterRefinement.MarkerMisaligns`).
- The backward search for the package to repeat goes from array index 0 to one place behind the array
  (`JitterConcealment.FirstLossReplays`, `JitterConcealment.SearchLeavesArray`). The model has an outcome of its own for
  this step, which ends the search. A loss noted before the start can count as the beginning of a later run of losses
  (`JitterConcealment.ContinuationMistaken`); in the run given for this, the search for the loss noted first has itself
  left the array before.
- RTCP length words are computed in 8 bits and are right up to 1024 bytes only (`RtcpFormat.LengthFieldExact`).
  The receiver report is read with growing gaps and agrees with its writer for at most two blocks, whatever follows it
  (`RtcpRoundTrip.ReceiverReportLimit`). A package is accepted with up to four bytes missing
  (`RtcpCompound.AcceptedLength`), and the number of bytes remaining then wraps around (`RtcpCompound.CutShortCounted`).
- The zeros behind a source description are written behind its padding, so that the byte behind its items is an old one
  (`RtcpCompound.DescriptionsReadBack`). Compounds are built in the buffer that packages are also received into: a
  source description arrives exactly if that byte was last written as a null, or never (`RtcpRuns.RunArrives`).
  It does as long as nothing longer was sent or received before (`RtcpRuns.WithinArrives`). It is lost, although it did
  not change, after the other side's compound with a longer name was received (`RtcpRuns.NameOverwritten`), and after a
  participant left, as one does who ends a SIP dialog (`RtcpRuns.ParticipantLeaves`, `RtcpRuns.NameLost`).
- The decoding of a SIP request URI is not undone by printing it, and it turns a plus into a space and drops the percent
  sign of an escape that is cut short (`SipRoundTrip.RequestUnchanged`). Without the empty line the body is looked for
  behind the first character of a message (`SipRoundTrip.EmptyLineMissing`).
- The search for an `rtpmap` attribute compares digits only: a payload type above 127 can hide a shorter one
  (`SdpRoundTrip.MapFound`, `SdpOffer.DigitsClash`).
- The search for a buffer size can miss a common one when a processor names `BUFFER_SIZE_ANY` early
  or when a size is named behind the 32nd entry (`BufferSize.FoundExactly`, `BufferSize.CommonMissed`,
  `BufferSize.LateMissed`).
- A-law encodes -32768, and mu-law every magnitude above 32635, as nearly silent, because the magnitude is
  kept in 16 signed bits (`Companding.FaithfulExactly`).
- The value computed for a group of samples is not their mean: the first of several samples is ignored
  and sample s counts s / (s + 1) times (`Resampler.MeanExactly`, `ResamplerValues.CompressedNearWeights`).
  For 32-bit samples and more than three samples a product overflows (`Resampler.WideSamplesFit`).
- Speech within the delay does not restart the count of silent packages, so that transmission can stop after a
  single silent package (`DtxSender.SilenceExactly`, `DtxSender.InterruptedSilence`).

## Model

| member | source | states |
|---|---|---|
| JitterRing.RtpBuffer.AddPackage | src/rtp/RTPBuffer.cpp:29-87 | the ring after adding is the window after `Add`, with the same status: restart, late package, full, too new, stored |
| JitterRing.RtpBuffer.Store | src/rtp/RTPBuffer.cpp:62-81 | one slot takes the package, its block grown only if too small; all others keep theirs |
| JitterRing.RtpBuffer.ReadPackage | src/rtp/RTPBuffer.cpp:89-153 | the ring after reading is the window after `Read`, with the same output; the loss counter grows by the packages skipped |
| JitterRing.RtpBuffer.Scan | src/rtp/RTPBuffer.cpp:102-118 | finds the first playable slot in front of the last one, having invalidated exactly the expired slots before it |
| JitterRing.RtpBuffer.TakeOut | src/rtp/RTPBuffer.cpp:133-151 | hands out the slot, moves the cursor behind it, advances the minimum and counts the packages skipped |
| JitterRing.RtpBuffer.ConcealLoss | include/rtp/LossConcealment.h:45-65 | the counters and the replacement of one missing package |
| JitterRing.RtpBuffer.RepeatLastPackage | src/rtp/RTPBuffer.cpp:160-178 | the backward search, up to and including the step behind the array |
| JitterRing.RtpBuffer.CalculateIndex | src/rtp/RTPBuffer.cpp:180-183 | index arithmetic modulo the capacity |
| JitterRing.RtpBuffer.IncrementIndex | src/rtp/RTPBuffer.cpp:185-188 | the next index, wrapping at the capacity |
| JitterRing.RtpBuffer.constructor | src/rtp/RTPBuffer.cpp:14-22 | a new ring is empty and not started |
| JitterRing.RotateConsume | src/rtp/RTPBuffer.cpp:138-141 | invalidating a slot and moving the cursor behind it is consuming the window up to it, wherever the ring wraps |
| JitterWindow.FirstPlayable | src/rtp/RTPBuffer.cpp:102-118 | the slot found is the first that is valid, not expired and not below the minimum; the last slot is never one |
| JitterSteps.FreshExactly | src/rtp/RTPBuffer.cpp:14-22 | a new buffer has nothing stored, started, noted or counted |
| JitterSteps.RestartExactly | src/rtp/RTPBuffer.cpp:33-86 | a first or marked package always sets the minimum to its own number, higher or lower, and takes the slot at the cursor; if the buffer is full, nothing else changes |
| JitterSteps.AddExactly | src/rtp/RTPBuffer.cpp:42-86 | in every state any other package is late, finds the buffer full, is too new, or takes the slot as far behind the cursor as its number is above the minimum, across the wrap as well; everything else stays |
| JitterSteps.ReadWaits | src/rtp/RTPBuffer.cpp:92-100 | with fewer packages than the threshold nothing changes |
| JitterSteps.ReadDelivers | src/rtp/RTPBuffer.cpp:101-152 | in every state the first slot that is valid, not too old and not below the minimum is handed out; where every slot, the cursor, the size, the minimum and the loss count are afterwards |
| JitterSteps.ReadStarves | src/rtp/RTPBuffer.cpp:101-131 | without such a slot the expired ones but the last are given up and the minimum advances by one modulo 65535, except from 0 |
| JitterSteps.ReadBelowMinimum | src/rtp/RTPBuffer.cpp:119-152 | a package below the minimum that is still at the cursor is handed out, with a negative number of lost ones |
| JitterSteps.ReadSingle | src/rtp/RTPBuffer.cpp:104-121 | a ring of one slot hands out its package however old it is |
| JitterSteps.LossNoted | include/rtp/LossConcealment.h:45-57 | which losses go on with the run before, and the counters of a new one |
| JitterSteps.ConcealedExactly | src/rtp/RTPBuffer.cpp:160-178 | the first two losses of a run are replaced by the package noted, the nearest in front of the cursor; what happens without one |
| JitterRefinement.AddRefines | src/rtp/RTPBuffer.cpp:29-87 | without wrap and restart, adding inserts exactly one key into the map from sequence number to package, or changes nothing |
| JitterRefinement.ResetRefines | src/rtp/RTPBuffer.cpp:33-39 | after a first or marked package the slots are at their keys if and only if the ring held no other package or the number did not change |
| JitterRefinement.DeliverRefines | src/rtp/RTPBuffer.cpp:104-151 | a read that finds a slot delivers the least key that is not expired and removes every key up to it |
| JitterRefinement.StarveRefines | src/rtp/RTPBuffer.cpp:121-131 | a read that finds none empties the map and advances the minimum by one, if and only if the unvisited slot is empty |
| JitterRefinement.ReadRefines | src/rtp/RTPBuffer.cpp:89-153 | a read does what the map says if and only if the last slot is empty or another package can be played |
| JitterRefinement.UnscannedSlot | src/rtp/RTPBuffer.cpp:104-118 | in a new buffer of any size, package 1 being read and package capacity + 1 stored, that package is in the map and is not found |
| JitterRefinement.MarkerMisaligns | src/rtp/RTPBuffer.cpp:33-39 | behind packages 10 and 11 a marked package 20 leaves package 11 where 21 belongs |
| JitterOccupancy.Occupancy | src/rtp/RTPBuffer.cpp:51-142 | in every run from a new buffer, wrap, markers, duplicates and expiry included: valid slots <= size <= capacity, size is stored minus delivered, and size minus valid slots is overwritten plus expired |
| JitterOccupancy.ExhaustedExactly | src/rtp/RTPBuffer.cpp:51-142 | in every run from a new buffer it is full of invalid slots if and only if as many packages were overwritten or expired as it has places |
| JitterOccupancy.ExhaustedForever | src/rtp/RTPBuffer.cpp:51-55 | a buffer full of invalid slots delivers nothing in any further run |
| JitterOccupancy.StepExhausted | src/rtp/RTPBuffer.cpp:51-55 | such a buffer accepts nothing and stays so |
| JitterOccupancy.ExhaustionReachable | src/rtp/RTPBuffer.cpp:107-111 | a reader that always comes after the delay gets every new buffer there, in a run whose clock does not go back and with a threshold of one package |
| JitterOccupancy.SlowReaderLeaks | src/rtp/RTPBuffer.cpp:107-111 | in that run each package that expires unread takes one place for good |
| JitterRuns.DeliveredWasAdded | src/rtp/RTPBuffer.cpp:62-81 | in every run, header and payload of a delivered package are those of a package added before, and those of a repeated one too unless the slot was never used |
| JitterRuns.DeliveredInOrder | src/rtp/RTPBuffer.cpp:101-151 | in every run in the regime the delivered sequence numbers are strictly increasing |
| JitterRuns.LossesTelescope | src/rtp/RTPBuffer.cpp:123-151 | without restarts the minimum advances by packages delivered, packages counted lost and reads of an empty buffer, together |
| JitterRuns.FreshGood | src/rtp/RTPBuffer.cpp:14-22 | a new buffer is in the regime |
| JitterBlock.SortedBlock | src/rtp/RTPBuffer.cpp:29-153 | at most capacity - 1 consecutive packages, added to any empty buffer (`FreshEmpty`: a new one is) in any order (the smallest first if it starts the numbering), come out in order and leave the buffer empty and waiting for the next number |
| JitterConcealment.FirstLossReplays | include/rtp/LossConcealment.h:45-65 | the first loss behind a delivered package repeats it if and only if the cursor is not at array index 0 and no older run of losses seems to go on |
| JitterConcealment.SearchLeavesArray | src/rtp/RTPBuffer.cpp:160-178 | after a duplicate and one whole turn of a ring of three, the search for package 7, just read, leaves the array |
| JitterConcealment.ContinuationMistaken | include/rtp/LossConcealment.h:45-65 | package 1, just read, is not repeated when package 0 had expired unread, where the search for package 65535 had left the array |
| JitterConcealment.LossesFade | include/rtp/LossConcealment.h:45-65 | of the losses behind a package the first two repeat it and all later ones are silent |
| JitterConcealment.DeliveryIsRepeatable | src/rtp/RTPBuffer.cpp:133-151 | in every run in the regime that adds each number once, the slot of a delivered package survives and the counters lag behind the minimum |
| JitterConcealment.ReplayAfterDelivery | src/rtp/RTPBuffer.cpp:121-178 | both together, from a new buffer: after any such run that ends with a delivery, two repetitions and then silence |
| RtcpFormat.LengthFieldExact | src/rtp/RTCPPackageHandler.cpp:306-335 | the length word covers the bytes of a package if and only if there are at most 1024 |
| RtcpFormat.HeaderFields | include/rtp/RTCPHeader.h:155-257 | type, count and length set in a new header are read back, with version 2, no padding and the source unchanged |
| RtcpFormat.HeaderOnWire | include/rtp/RTCPHeader.h:155-257 | the eight bytes of a header: 128 and the count, the type, the length word with its high byte first, and the source |
| RtcpFormat.HeaderFromWire | include/rtp/RTCPHeader.h:155-257 | what the eight bytes received are read as |
| RtcpFormat.PaddingSet | include/rtp/RTCPHeader.h:203-211 | the padding flag is set and never cleared, and nothing else changes |
| RtcpFormat.CountSet | include/rtp/RTCPHeader.h:213-221 | the count is ORed bit by bit with the one before, and nothing else changes |
| RtcpFormat.WordOnWire | include/rtp/RTCPHeader.h:244-256 | the most significant byte of a word is sent first |
| RtcpFormat.SsrcRoundTrip | include/rtp/RTCPHeader.h:244-256 | the source identifier in network order is read back |
| RtcpFormat.SenderInformationFields | include/rtp/RTCPHeader.h:309-345 | the five words of the sender information are read back |
| RtcpFormat.ReportFields | include/rtp/RTCPHeader.h:422-522 | the fields of a reception report are read back, the lost packages modulo 2^24 |
| RtcpFormat.ReportOnWire | include/rtp/RTCPHeader.h:422-522 | where the fields of a report lie, the packages lost with their lowest byte first |
| RtcpRoundTrip.SenderReportRoundTrip | src/rtp/RTCPPackageHandler.cpp:27-43 | header, sender information and all reports are read back if and only if there are at most 31 reports |
| RtcpRoundTrip.NewSenderHeader | src/rtp/RTCPPackageHandler.cpp:31-33 | type, count and length of a sender report |
| RtcpRoundTrip.ReceiverReportRoundTrip | src/rtp/RTCPPackageHandler.cpp:182-197 | reports are read back if and only if each block behind the second is found where the growing gaps of the loop lead |
| RtcpRoundTrip.ReceiverReportLimit | src/rtp/RTCPPackageHandler.cpp:182-197 | whatever lies behind the package, all lists of a length are read back if and only if the length is at most two |
| RtcpRoundTrip.NewReceiverHeader | src/rtp/RTCPPackageHandler.cpp:49-51 | type, count and length of a receiver report |
| RtcpRoundTrip.DescriptionsRoundTrip | src/rtp/RTCPPackageHandler.cpp:199-228 | source descriptions are read back if and only if every item has a type, a trimmed value of at most 255 bytes, and a zero follows the items |
| RtcpRoundTrip.ItemsFound | src/rtp/RTCPPackageHandler.cpp:206-223 | the items in front of a zero are found one after the other |
| RtcpRoundTrip.ItemsFill | src/rtp/RTCPPackageHandler.cpp:206-223 | items that fill the package to its end are found without a zero behind them |
| RtcpRoundTrip.NewDescriptionHeader | src/rtp/RTCPPackageHandler.cpp:86-97 | the package is a multiple of four bytes, with two to five bytes behind the last item |
| RtcpCompound.DescriptionsReadBack | src/rtp/RTCPPackageHandler.cpp:62-102 | the same in the buffer: what decides is the byte that was behind the items before, since the zeros are written further behind |
| RtcpRoundTrip.ByeRoundTrip | src/rtp/RTCPPackageHandler.cpp:231-242 | the message is read back if and only if it has at most 255 bytes |
| RtcpRoundTrip.GoodbyeOfSources | src/rtp/RTCPPackageHandler.cpp:231-242 | further sources are skipped by their count, and a count of zero takes a byte of the source for the length |
| RtcpRoundTrip.NewByeHeader | src/rtp/RTCPPackageHandler.cpp:107-132 | the length word covers exactly the padded bytes of a message that is not empty, and three bytes more of an empty one |
| RtcpRoundTrip.ApplicationRoundTrip | src/rtp/RTCPPackageHandler.cpp:244-258 | data in whole words is read back if and only if the package has at most 1024 bytes |
| RtcpRoundTrip.ApplicationLengthRead | src/rtp/RTCPPackageHandler.cpp:244-258 | the length of the data from the length word in 16 bits, where a word below two wraps |
| RtcpRoundTrip.NewApplicationHeader | src/rtp/RTCPPackageHandler.cpp:134-148 | type, subtype as count, and length |
| RtcpRoundTrip.SenderReportOnWire | src/rtp/RTCPPackageHandler.cpp:27-43 | sender information in bytes 8 to 27, and 24 bytes for each report behind it |
| RtcpRoundTrip.ReceiverReportOnWire | src/rtp/RTCPPackageHandler.cpp:45-60 | 24 bytes for each report from byte 8 on |
| RtcpRoundTrip.ItemOnWire | src/rtp/RTCPPackageHandler.cpp:72-84 | an item is its type, its length and its value |
| RtcpRoundTrip.GoodbyeOnWire | src/rtp/RTCPPackageHandler.cpp:104-132 | the length of the text in byte 8, the text, and nulls up to a whole word |
| RtcpRoundTrip.ApplicationOnWire | src/rtp/RTCPPackageHandler.cpp:134-157 | four bytes of name, and the data |
| RtcpCompound.AcceptedLength | src/rtp/RTCPPackageHandler.cpp:267-304 | a whole package is accepted from a number of bytes if and only if these are at least a header and at most four less than the package |
| RtcpCompound.AcceptedExactly | src/rtp/RTCPPackageHandler.cpp:267-304 | accepted are at least eight bytes with version 2 and a type from 200 to 204 in byte 1, whose length word announces at most four bytes more than there are |
| RtcpCompound.CompoundCounted | src/rtp/RTCPPackageHandler.cpp:312-326 | any concatenation of n packages is counted as n, with no bytes remaining |
| RtcpCompound.CutShortCounted | src/rtp/RTCPPackageHandler.cpp:312-326 | after a package cut short by up to four bytes the number of bytes remaining wraps, and the search goes on behind what was received |
| RtcpCompound.SenderReportWhole | src/rtp/RTCPPackageHandler.cpp:27-43 | a sender report of at most 31 reports is a whole package of its type and source, ready for a compound |
| RtcpCompound.ReceiverReportWhole | src/rtp/RTCPPackageHandler.cpp:45-60 | so is a receiver report |
| RtcpCompound.ApplicationWhole | src/rtp/RTCPPackageHandler.cpp:134-157 | so is an application-defined package of at most 1024 bytes |
| RtcpHandler.RtcpPackageHandler.constructor | src/rtp/RTCPPackageHandler.cpp:14 | a new buffer has 8000 nulls |
| RtcpHandler.RtcpPackageHandler.CreateSenderReport | src/rtp/RTCPPackageHandler.cpp:27-43 | exactly the bytes of the package are written at the offset |
| RtcpHandler.RtcpPackageHandler.CreateReceiverReport | src/rtp/RTCPPackageHandler.cpp:45-60 | exactly the bytes of the package are written at the offset |
| RtcpHandler.RtcpPackageHandler.CreateSourceDescription | src/rtp/RTCPPackageHandler.cpp:62-102 | header and items are written, the padding is left as it was, and the zeros behind it |
| RtcpHandler.RtcpPackageHandler.CreateBye | src/rtp/RTCPPackageHandler.cpp:104-132 | exactly the bytes of the package are written at the offset |
| RtcpHandler.RtcpPackageHandler.CreateApplicationDefined | src/rtp/RTCPPackageHandler.cpp:134-157 | the bytes of the package are written if its data is in whole words, else nothing |
| RtcpHandler.RtcpPackageHandler.ReadSenderReport | src/rtp/RTCPPackageHandler.cpp:160-180 | header, sender information and as many reports as the header counts, or none if they leave the memory |
| RtcpHandler.RtcpPackageHandler.ReadReceiverReport | src/rtp/RTCPPackageHandler.cpp:182-197 | header and reports, with the gaps of the loop |
| RtcpHandler.RtcpPackageHandler.ReadSourceDescription | src/rtp/RTCPPackageHandler.cpp:199-228 | header and items up to a zero or the length given, with trimmed values |
| RtcpHandler.RtcpPackageHandler.GetCompoundPackagesCount | src/rtp/RTCPPackageHandler.cpp:312-326 | the packages accepted one after the other, in 32-bit arithmetic |
| RtcpMessages.RemainingNarrowed | src/rtp/RTCPPackageHandler.cpp:199 | the number of bytes wraps at 64 kilobytes |
| RtcpMessages.HandleOne | src/rtp/RTCPHandler.cpp:128-205 | a whole package is read by the reader of its type, which gets all bytes received from there on, and then what is behind it is handled, unless it was a goodbye |
| RtcpMessages.ReaderOfType | src/rtp/RTCPHandler.cpp:135-189 | byte 1 decides the reader: 200 and 201 for reports, 202 for source descriptions, 203 for a goodbye, 204 for application-defined packages |
| RtcpHandler.RtcpPackageHandler.HandlePackage | src/rtp/RTCPHandler.cpp:128-205 | the messages of all packages from a place in the buffer on |
| RtcpHandler.RtcpPackageHandler.ReadPackage | src/rtp/RTCPHandler.cpp:135-194 | the reader for the type |
| RtcpHandler.RtcpPackageHandler.ReceivePackage | src/rtp/RTCPHandler.cpp:106-123 | what is received is written at the start of the buffer compounds are built in, and handled there if it passes the test |
| RtcpHandler.RtcpPackageHandler.SendSourceDescription | src/rtp/RTCPHandler.cpp:207-214 | the whole buffer afterwards: a report and a source description of the same source, one behind the other over what was there; they are counted as two |
| RtcpHandler.RtcpPackageHandler.SendByePackage | src/rtp/RTCPHandler.cpp:220-231 | the same with a goodbye behind them; they are counted as three |
| RtcpSends.DescriptionWroteExactly | src/rtp/RTCPHandler.cpp:207-214 | which bytes of the buffer a report and a source description leave, and which stay |
| RtcpSends.GoodbyeWroteExactly | src/rtp/RTCPHandler.cpp:220-231 | so it is with a goodbye |
| RtcpSends.GapUnwritten | src/rtp/RTCPPackageHandler.cpp:86-94 | the byte behind the items is not among those written |
| RtcpSends.DescriptionCounted | src/rtp/RTCPHandler.cpp:207-214 | every report with a source description is counted as two packages with no bytes remaining |
| RtcpSends.GoodbyeCounted | src/rtp/RTCPHandler.cpp:220-231 | with a goodbye as three |
| RtcpSends.ReportSent | src/rtp/RTCPHandler.cpp:146-167 | the report read from the start of a compound is the one given, sender information and all, if and only if it is a sender report or each block behind the second is found by the gaps |
| RtcpSends.DescriptionsSent | src/rtp/RTCPHandler.cpp:168-183 | the source description read from all bytes behind the report is the one given if and only if its items are readable and a null follows them |
| RtcpSends.TextSent | src/rtp/RTCPHandler.cpp:135-145 | the text read behind them is the one given if and only if it has at most 255 bytes |
| RtcpSends.DescriptionHandled | src/rtp/RTCPHandler.cpp:128-205 | of a report with a source description exactly these two messages are handled if and only if both are read right |
| RtcpSends.GoodbyeHandled | src/rtp/RTCPHandler.cpp:128-205 | with a goodbye exactly three, if and only if its text fits too |
| RtcpRuns.WroteExactly | src/rtp/RTCPHandler.cpp:80-107 | each byte of the buffer after a send or a receive is the one it writes there, or as it was |
| RtcpRuns.BufferAfterRun | src/rtp/RTCPHandler.cpp:80-107 | in every run of sends and receives each byte of the buffer is the one last written there |
| RtcpRuns.RunArrives | src/rtp/RTCPHandler.cpp:80-107 | in every run from a new buffer the source description sent last arrives if and only if its items are readable and the last event before that wrote the byte behind them left a null there, or none wrote it; all messages arrive if and only if it does, the report is read right and the text of a goodbye fits |
| RtcpRuns.WithinArrives | src/rtp/RTCPHandler.cpp:80-107 | if nothing sent before had items that end further behind and nothing received was longer, it arrives if and only if its items are readable |
| RtcpRuns.ReceivedDecides | src/network/UDPWrapper.cpp:118-139 | if the package received last goes further than the items, one byte of it decides |
| RtcpRuns.NameOverwritten | src/rtp/RTCPHandler.cpp:80-107 | a readable name of any length up to 254, sent twice, is lost when a compound that differs by one more letter is received in between |
| RtcpRuns.ParticipantLeaves | src/sip/SIPRequest.cpp:399-405 | with one report less than before, in every run that receives only shorter packages in between, the same source description arrives if and only if it is readable and one byte of the compound before is a null |
| RtcpRuns.NameLost | src/rtp/RTCPHandler.cpp:207-214 | a readable name of forty letters is then lost, whatever the reports were |
| SipFormat.FieldRoundTrip | include/KeyValuePairs.h:46-51 | a field is read back from its line if and only if key and value are trimmed and the key has no colon and not one character |
| SipFormat.FieldWithoutColon | include/KeyValuePairs.h:46-51 | a line without a colon is both key and value |
| SipFormat.RequestAccepted | src/sip/SIPPackageHandler.cpp:20-72 | the version is tested first, then the decoded URI; what is accepted, and with which error everything else is refused |
| SipFormat.NoSpaces | src/sip/SIPPackageHandler.cpp:230-252 | a message without spaces stands for its own first and second part |
| SipRoundTrip.LineRoundTrip | include/sip/SIPPackageHandler.h:279-322 | with the long or with the compact name |
| SipRoundTrip.MessageRoundTrip | src/sip/SIPPackageHandler.cpp:230-291 | start line, fields in order with the length set or appended, and any body are read back, whichever names are compact |
| SipRoundTrip.TextRead | src/sip/SIPPackageHandler.cpp:230-291 | for any text behind the empty line: the body is as much of it as the last length announces, nothing without a length or without text, and an error if there is less |
| SipRoundTrip.BodyCutOff | src/sip/SIPPackageHandler.cpp:276-291 | a printed message that is cut off within its body is refused, and one cut off in front of it has none |
| SipRoundTrip.NoLengthNoBody | src/sip/SIPPackageHandler.cpp:276-291 | without a length there is no body, whatever follows |
| SipRoundTrip.LastLengthCounts | src/sip/SIPPackageHandler.cpp:269-272 | of several lengths the last one counts |
| SipRoundTrip.NegativeLength | src/sip/SIPPackageHandler.cpp:269-283 | a negative length wraps, and -1 stands for none |
| SipRoundTrip.EmptyLineMissing | src/sip/SIPPackageHandler.cpp:255-291 | without the empty line the fields are read, and the body is taken from behind the first character of the message |
| SipRoundTrip.RequestRoundTrip | src/sip/SIPPackageHandler.cpp:20-48 | a request is read back with its URI decoded, and refused unless that starts with `sip:` and has an `@` |
| SipRoundTrip.RequestUnchanged | src/sip/SIPPackageHandler.cpp:32-48 | it is read back unchanged if and only if the URI has no escape, plus or NUL, starts with `sip:` and has an `@` |
| SipRoundTrip.ResponseRoundTrip | src/sip/SIPPackageHandler.cpp:50-72 | a response is read back with its status code, reason, fields and body |
| SipRoundTrip.CompactNamesEquivalent | include/sip/SIPPackageHandler.h:279-322 | compact names in any selection of the lines change nothing that is read |
| SipRoundTrip.PrintedLength | src/sip/SIPPackageHandler.cpp:207-228 | the length read from printed fields is the size of the body |
| SipRoundTrip.CompactNames | include/sip/SIPPackageHandler.h:287-315 | the eight compact names that are known |
| SipRoundTrip.StartLines | src/sip/SIPPackageHandler.cpp:20-60 | the start lines of requests and responses, character by character |
| SipRoundTrip.HeaderLine | src/sip/SIPPackageHandler.cpp:207-228 | a header line, character by character |
| SipRoundTrip.LengthPrinted | src/sip/SIPPackageHandler.cpp:207-228 | a missing length is appended, an existing one is overwritten where it stands, and all other fields stay |
| SipHandler.ReadPackage | src/sip/SIPPackageHandler.cpp:230-291 | the parts the specification names, or its error; the fields read before an error are appended to the header all the same |
| SipHandler.ReadStartLine | src/sip/SIPPackageHandler.cpp:234-248 | the index arithmetic, with `npos` wrapping to 0 and 1, finds the three parts |
| SipHandler.KeptFields | src/sip/SIPPackageHandler.cpp:252-274 | without an error the fields kept are those of the message |
| SipHandler.ReadRest | src/sip/SIPPackageHandler.cpp:249-290 | the loop over the lines: all fields up to the empty line, the last line or the first line refused, the last length, the body or an error |
| SipHandler.ReadBody | src/sip/SIPPackageHandler.cpp:276-289 | the body announced, none without a length or at the end, an error if it is too short |
| SipHandler.ReadRequestPackage | src/sip/SIPPackageHandler.cpp:32-48 | the body or the error; command and URI are set once the version is right, and fields are appended as far as they were read |
| SipHandler.ReadResponsePackage | src/sip/SIPPackageHandler.cpp:62-72 | the body or the error; status code and reason are set once the version is right, and fields are appended as far as they were read |
| SipHandler.WriteHeaderFields | src/sip/SIPPackageHandler.cpp:207-228 | appends every field on its line, lengths replaced or appended, and the empty line |
| SipHandler.CreateRequestPackage | src/sip/SIPPackageHandler.cpp:20-30 | the text the round trip is about |
| SipHandler.CreateResponsePackage | src/sip/SIPPackageHandler.cpp:50-60 | the text the round trip is about |
| Text.DecodeUnchanged | include/Utility.h:126-133 | decoding keeps a URI if and only if it has no escape, plus or NUL |
| UriEscapes.DecodeWritten | include/Utility.h:126-133 | a text in which any characters are escaped, with the 22 hexadecimal digits, is decoded to what is meant |
| UriEscapes.CutShort | include/Utility.h:126-133 | an escape that is cut short is dropped, and a NUL ends the text |
| Text.TrimEnds | include/Utility.h:91-96 | trimming leaves no white space at either end, and changes nothing if there is none |
| Text.TrimRemoves | include/Utility.h:91-96 | nothing but white space at the ends is removed |
| Text.BlankCharacters | include/Utility.h:91-96 | the six characters that are white space |
| Text.AtoiDecimal | src/sip/SIPPackageHandler.cpp:269-272 | a printed number is read back whatever follows it |
| Text.AtoiSigned | src/sip/SIPPackageHandler.cpp:269-272 | white space and one sign in front of a number, and no number at all |
| SdpOffer.OfferReadBack | src/sip/SDPMessageHandler.cpp:37-319 | for every offer of plain texts, with or without a cryptographic context, the media read are for each protocol the payload types in order, each with the format and the parameters found for it |
| SdpOffer.OfferRestored | src/sip/SDPMessageHandler.cpp:251-319 | distinct payload types of seven bits come back whole and in order, with port, protocol, encoding, rate, channels and parameters, if and only if each predefined one is supported and as registered and the encoding of each other one is supported |
| SdpOffer.EverythingRestored | src/sip/SDPMessageHandler.cpp:134-146 | without a selection everything registered is offered and comes back |
| SdpSession.OfferLines | src/sip/SDPMessageHandler.cpp:44-223 | the lines of every offer, character by character |
| SdpSession.FormatLines | src/sip/SDPMessageHandler.cpp:134-162 | the attributes of an offered format, character by character |
| SdpSession.SessionReadBack | src/sip/SDPMessageHandler.cpp:44-93 | version, origin, name, connection and time of every offer are read back word by word, whatever media follow |
| SdpSession.AddressReadBack | include/sip/SDPMessageHandler.h:106-112 | the other side takes the local address for the host to send to, in every offer, if and only if the address is one word that does not end in white space |
| SdpOffer.DigitsApart | include/sip/SDPMessageHandler.h:91-101 | among payload types of seven bits the digits of one above 18 start no other's |
| SdpOffer.DigitsClash | include/sip/SDPMessageHandler.h:91-101 | type 19 behind type 190 is read as 190 |
| SdpOffer.OwnMap | include/sip/SDPMessageHandler.h:91-101 | the searches find each offered type's own attributes |
| SdpRoundTrip.MapFound | include/sip/SDPMessageHandler.h:91-101 | the search finds the first offered format whose type starts with the digits asked for, whatever attributes follow |
| SdpRoundTrip.ParametersFound | include/sip/SDPMessageHandler.h:91-101 | the parameters found are those of the first offered format like it that has any, or none |
| SdpParameters.ParametersRoundTrip | src/sip/SDPMessageHandler.cpp:420-444 | parameters with keys distinct in any case are read back from their line, in order |
| SdpParameters.OpusParameters | src/sip/SDPMessageHandler.cpp:431-443 | the line Opus is registered with stands for its two parameters |
| SdpRoundTrip.MapRead | src/sip/SDPMessageHandler.cpp:398-418 | encoding, rate and channels are read back from an attribute |
| SdpFormat.NoMap | src/sip/SDPMessageHandler.cpp:398-405 | without a map there is no encoding, no rate and no channels |
| SdpRoundTrip.MapWithoutChannels | src/sip/SDPMessageHandler.cpp:398-418 | a map without channels stands for two |
| SdpRoundTrip.MediaRead | src/sip/SDPMessageHandler.cpp:256-280 | port, protocol and payload types are read back from a media field |
| SdpOffer.MediaLineRead | src/sip/SDPMessageHandler.cpp:458-487 | a media line is read as one media field that ends with its last payload type, the space behind it being trimmed, and as no attribute |
| SdpRoundTrip.AttributesRead | include/KeyValuePairs.h:101-114 | attribute lines without commas are read as their attributes and as nothing else |
| SdpRoundTrip.SplitJoined | src/sip/SDPMessageHandler.cpp:227-238 | lines joined with line breaks are split into the same lines |
| SdpHandler.CreateSessionDescription | src/sip/SDPMessageHandler.cpp:37-225 | the text the theorems are about, for selected or for all formats |
| SdpHandler.GenerateMediaLine | src/sip/SDPMessageHandler.cpp:458-487 | the media line of the selected or of all formats |
| SdpHandler.AppendFormats | src/sip/SDPMessageHandler.cpp:134-162 | the attributes of the selected or of all formats behind the lines before |
| SdpHandler.ReadSessionDescription | src/sip/SDPMessageHandler.cpp:227-249 | one key and value for each line that ends in a line break |
| SdpHandler.GetConnectionAddress | include/sip/SDPMessageHandler.h:106-112 | what is behind the last space of the first connection field |
| SdpHandler.GetField | include/KeyValuePairs.h:90-99 | the value of the first field with a key, or nothing |
| SdpFormat.LineWithoutKey | include/KeyValuePairs.h:46-51 | lines without a key or without an equals sign |
| SdpFormat.ValuesSeparated | include/KeyValuePairs.h:101-114 | commas separate values, each of which is trimmed |
| SdpHandler.ReadMediaDescriptions | src/sip/SDPMessageHandler.cpp:251-319 | the media of all audio fields in order, or none where a format that is not registered is followed |
| SdpHandler.ReadMediaField | src/sip/SDPMessageHandler.cpp:258-278 | fields for other media and other protocols are skipped |
| SdpFormat.OtherMediaSkipped | src/sip/SDPMessageHandler.cpp:258-278 | video and other protocols give no media |
| SdpHandler.ReadPayloadTypes | src/sip/SDPMessageHandler.cpp:275-316 | the loop over the spaces reads every payload type |
| SdpHandler.ReadType | src/sip/SDPMessageHandler.cpp:281-315 | four predefined types as registered, the other predefined ones skipped, all others by their attribute |
| SdpFormat.PredefinedTypes | src/sip/SDPMessageHandler.cpp:281-302 | of the types up to 18, the types 0, 3, 8 and 10 are read as registered and the others are skipped |
| SdpFormat.OnlyOpus | src/sip/SDPMessageHandler.cpp:420-431 | parameters are read for Opus only, and from behind a space |
| SdpFormat.PairWithoutEquals | src/sip/SDPMessageHandler.cpp:431-443 | a pair without an equals sign is both key and value |
| SdpFormat.SetAgain | include/KeyValuePairs.h:76-87 | a parameter that is named again keeps its place and gets the new value |
| SdpHandler.ReadFormatParameters | src/sip/SDPMessageHandler.cpp:420-444 | the loop over the pairs of the parameter line, for Opus only |
| SdpHandler.AssignParameter | include/KeyValuePairs.h:76-87 | the first parameter with the key in any case gets the value, or a new one is appended |
| SdpHandler.GetRTPMap | src/sip/SDPMessageHandler.cpp:398-418 | encoding, rate and channels, two channels if none are named |
| SdpHandler.IsEncodingSupported | src/sip/SDPMessageHandler.cpp:446-456 | whether a registered encoding is the same but for the case of letters |
| SdpFormat.SameExactly | include/Utility.h:98-104 | texts are the same if and only if their letters are, be they capital or small |
| SdpFormat.SupportedExactly | src/sip/SDPMessageHandler.cpp:446-456 | an encoding is supported if and only if a registered format has it in any case |
| SdpHandler.GetFormat | src/sip/SupportedFormats.cpp:59-69 | the first registered format of a payload type |
| SdpFormat.RegisteredFirst | src/sip/SupportedFormats.cpp:59-69 | of several formats of a type the first is found |
| SdpFormat.SelectedKept | src/sip/SDPMessageHandler.cpp:148-168 | a selected format is offered as it was selected |
| SdpFormat.ParametersOfFirst | src/sip/SDPMessageHandler.cpp:160-167 | with the parameters of the first registered format like it, or none |
| ExtendedSequence.CalculateExtendedHighestSequenceNumber | src/rtp/RTPListener.cpp:109-137 | the candidate chosen by the loop, from the widths and signs of the code |
| ExtendedSequence.ExtendedExact | src/rtp/RTPListener.cpp:109-137 | an index is found from its low 16 bits if and only if it is less than half a turn ahead or at most half a turn behind, or in the first turn |
| ExtendedSequence.ExtendedLow | src/rtp/RTPListener.cpp:109-137 | what is found has the received bits and is near |
| ExtendedSequence.Participant.PackageReceived | src/rtp/RTPListener.cpp:69-91 | first package, other payload type, or the next index |
| ExtendedSequence.RunReconstructed | src/rtp/RTPListener.cpp:69-88 | over any number of turns the number kept is the true index of the last package of the first one's payload type |
| Companding.SegmentFound | include/codecs/g711common.h:23-40 | the segment found is the one that contains the value |
| Companding.Close | include/codecs/g711common.h:60-186 | a magnitude and the value of its code differ by at most 8 in the smallest A-law segments, by at most a thirty-second of the (biased) magnitude elsewhere |
| Companding.CodeOfValue | include/codecs/g711common.h:60-186 | every code is the code of its own value |
| Companding.FaithfulExactly | include/codecs/g711common.h:60-186 | the error is at most 8 or a thirty-second of the magnitude for A-law, a thirty-second of the magnitude plus 132 for mu-law, if and only if the sample is above -32768, or of magnitude at most 32635 |
| Companding.Monotone | include/codecs/g711common.h:60-186 | larger samples are decoded to no smaller ones |
| Companding.Idempotent | include/codecs/g711common.h:60-186 | encoding and decoding a second time changes nothing, for every sample |
| Companding.ValueFormula | include/codecs/g711common.h:86-186 | the value of every code: 33 and twice the step, doubled for every segment |
| Companding.CodeWord | include/codecs/g711common.h:60-161 | the bits that are sent: segment, step and sign, all of them inverted for mu-law and every second one for A-law |
| Companding.EncodeOfDecoded | include/codecs/g711common.h:60-186 | every byte is the code of the sample it is decoded to, but for the signed zero of mu-law |
| G711.Processor.Configure | src/codecs/G711Alaw.cpp:47-51 | the size of the own buffer is the number of frames times the number of output channels |
| G711.SampleOnWire | src/codecs/G711Alaw.cpp:59-72 | a sample is two bytes, the lower one first, in two's complement |
| G711.Processor.ProcessInputData | src/codecs/G711Alaw.cpp:59-72 | within one buffer, byte i becomes the code of sample i as it was, and the bytes behind are untouched |
| G711.Processor.ProcessOutputData | src/codecs/G711Mulaw.cpp:74-91 | at most `maxBufferSize` bytes become their samples, and what is behind them is untouched |
| G711.SecondPass | src/codecs/G711Alaw.cpp:59-91 | encoding and decoding the decoded buffer once more gives the same buffer, byte by byte |
| G711.BufferRoundTrip | src/codecs/G711Alaw.cpp:59-91 | a buffer encoded in place and decoded keeps every sample as near as the law allows, and their order |
| Resampler.Compress | src/processors/Resampler.cpp:126-158 | for shared and for separate buffers, every group of each channel of the input as it was becomes one sample, and the cells behind are untouched; all samples stay in range |
| Resampler.CompressGroup | src/processors/Resampler.cpp:143-151 | the running value of a group, always in the range of the samples |
| Resampler.InPlaceAsSeparate | src/processors/Resampler.cpp:78-83 | in place and separate buffers give the same samples |
| ResamplerValues.FactorOne | src/processors/Resampler.cpp:126-158 | a factor of one leaves every sample as it is |
| ResamplerValues.FirstFrameIgnored | src/processors/Resampler.cpp:126-158 | buffers that agree on all but the first frame of a group are compressed to the same sample |
| ResamplerValues.FactorTwo | src/processors/Resampler.cpp:126-158 | with a factor of two a sample is half of the second one of its pair, towards zero |
| ResamplerValues.CompressedNearWeights | src/processors/Resampler.cpp:143-153 | for every factor a sample times the factor less one is the sum of the cells of its group, frame s counted s / (s + 1) times, up to the square of the factor less one |
| Resampler.AccumulatorInRange | src/processors/Resampler.cpp:143-151 | the running value stays between the bounds of the samples for any number of samples |
| Resampler.MeanExactly | src/processors/Resampler.cpp:143-151 | the value is the mean of the samples for all groups of a size if and only if the size is one |
| Resampler.SmallSamplesFit | src/processors/Resampler.cpp:149-151 | for 8- and 16-bit samples no product leaves the range of `int` |
| Resampler.WideSamplesFit | src/processors/Resampler.cpp:149-151 | for 32-bit samples none does for all groups of a size if and only if the size is at most three |
| Resampler.RealClosedForm | src/processors/Resampler.cpp:149-151 | without rounding, the value of n floating-point samples times n - 1 is the sum of the samples, sample s weighted with s / (s + 1) |
| Resampler.FirstIgnored | src/processors/Resampler.cpp:149-151 | the first of two or more samples has no influence |
| Resampler.Extrapolate | src/processors/Resampler.cpp:160-186 | each sample is in all frames of its group, and the cells behind are untouched |
| Resampler.RepeatedDistinct | src/processors/Resampler.cpp:172-183 | no cell is written twice |
| Resampler.ExtrapolatedWhole | src/processors/Resampler.cpp:172-183 | every cell is written: the samples determine the whole output |
| Resampler.ThinningRestores | src/processors/Resampler.cpp:160-186 | every factor-th frame of the output is the input |
| ResamplerValues.ExtrapolatedCell | src/processors/Resampler.cpp:160-186 | where each sample is in the output, by cells |
| Resampler.GetBestInputSampleRate | src/processors/Resampler.cpp:107-124 | the lowest multiple available, zero if there is none |
| BufferSize.FindOptimalBufferSize | src/processors/ProcessorManager.cpp:153-209 | the first size in the order of priorities and processors that all accept from that priority on, else the default if all support everything, else zero |
| BufferSize.CheckSuggestion | src/processors/ProcessorManager.cpp:178-194 | whether every processor accepts a size from a priority on |
| BufferSize.OptimalUnique | src/processors/ProcessorManager.cpp:153-209 | there is one result |
| BufferSize.OptimalSound | src/processors/ProcessorManager.cpp:153-209 | a size found is accepted by every processor, for all lists |
| BufferSize.SuggestedExactly | src/processors/ProcessorManager.cpp:165-198 | a size is suggested at any priority if and only if it can be found at its best one |
| BufferSize.FoundExactly | src/processors/ProcessorManager.cpp:165-198 | the search ends without one if and only if no size can be found |
| BufferSize.OptimalComplete | src/processors/ProcessorManager.cpp:165-198 | if any size can be found one is, and none of a better priority can |
| BufferSize.CommonFound | src/processors/ProcessorManager.cpp:165-198 | without `BUFFER_SIZE_ANY` and with at most 32 entries a common size is found whenever there is one |
| BufferSize.CommonMissed | src/processors/ProcessorManager.cpp:183-189 | with `BUFFER_SIZE_ANY` a common size can be missed |
| BufferSize.LateMissed | src/processors/ProcessorManager.cpp:165 | a common size named only behind the 32nd entry is missed |
| BufferSize.DefaultTaken | src/processors/ProcessorManager.cpp:199-209 | the default is taken if all processors name nothing but 1 |
| BufferSize.FirstChoiceTaken | src/processors/ProcessorManager.cpp:165-198 | a first choice of the first processor that all accept is taken |
| DtxSender.ProcessorRTP.ProcessInputData | src/rtp/ProcessorRTP.cpp:43-82 | one input: the package sent, if any, with its number and marker, and the counters |
| DtxSender.RTPPackageHandler.CreateNewRTPPackage | src/rtp/RTPPackageHandler.cpp:24-39 | the next number modulo 65535 of a 32-bit counter, with payload type, timestamp and source |
| DtxSender.MarkedExactly | src/rtp/ProcessorRTP.cpp:61-68 | a sent package is marked if and only if the input before it was suppressed |
| DtxSender.SuppressedExactly | src/rtp/ProcessorRTP.cpp:50-60 | an input is suppressed if and only if it is silent and more silent inputs than the delay have come since the start or the last marked package |
| DtxSender.SilenceExactly | src/rtp/ProcessorRTP.cpp:50-68 | a period of suppression begins after silence in a row longer than the delay if and only if no speech came within the count |
| DtxSender.InterruptedSilence | src/rtp/ProcessorRTP.cpp:50-68 | for every delay, one silent input behind speech is suppressed when the silent ones before the speech had used the delay up |
| DtxSender.AllSent | src/rtp/ProcessorRTP.cpp:50-61 | without the setting everything is sent, unmarked |
| DtxSender.SequenceGapless | src/rtp/RTPPackageHandler.cpp:24-39 | the numbers sent are consecutive modulo 65535 across suppression, until the counter wraps |
| DtxSender.SequenceRepeated | src/rtp/RTPPackageHandler.cpp:29 | at the wrap one number is used twice |

## Left out

- Sockets, threads, mutexes, clocks and logging: each locked method is one step, and time is a parameter. Each RTCP send
  and each receive is one step too, although the goodbye is sent from another thread than the one that receives.
- The jitter buffer as a map across the wrap at 65535 and at number 0, where the code mixes two moduli: the refinement, order and loss theorems are for the range in front of the wrap; conservation and integrity hold everywhere.
- JitterRuns.DeliveredInOrder: for runs in which restarts find an empty ring and no package is stored in the slot that is never visited; `ResetRefines` and `ReadRefines` say what happens otherwise.
- JitterRuns.LossesTelescope: for the same runs.
- The policy that adapts the play-out threshold; the threshold is any number.
- The participant's packagesLost counter in the jitter buffer is the statistics counter's twin and has no field of its own.
- JitterRing.RtpBuffer.RepeatLastPackage: a read behind the array ends the search with an outcome of its own, because what lies there is not part of this model.
- `assertCapacity` and its growth of the RTCP buffer: the writers require room in the 8000 bytes allocated, which all packages of up to 31 short items leave; the offset within a source description is unbounded instead of 16 bits wide.
- RTCP headers, sender information and reports are values whose setters return a new value, instead of objects updated in place; the buffer they are written into is an array.
- NTP timestamps, the loss fraction and the interarrival jitter computed for reports.
- The overflow of `atoi`; numbers read are unbounded before they are narrowed.
- SipRoundTrip.MessageRoundTrip: for bodies of less than 2^32 - 1 bytes, the value that stands for no length, and for texts without the separators of their place; `FieldRoundTrip` says what a field needs.
- Multipart bodies, header checks, grammars, authentication, STUN and the SIP dialog: not modelled.
- Selection of the best media; the RTCP attribute.
- SdpOffer.OfferReadBack: for texts without line breaks, and formats without commas, or slashes in the encoding; the parameter lines registered by the program are trimmed and have no commas, and neither have names of suites and keys in base 64.
- Base64: suite and key of the cryptographic attribute are texts.
- Resampler.Compress: for integers between two bounds, as 8- and 16-bit samples are; where 32-bit samples overflow is the subject of `WideSamplesFit`, and the value of floating-point samples that of `RealClosedForm`, without rounding. The number of frames is not narrowed to 16 bits.
- The memory handling of the processors, and codecs other than G.711.
- DtxSender.SuppressedExactly: for runs of less than 2^32 inputs, before the counter of silent packages wraps.
- The setting for discontinuous transmission is a constant; the code leaves it uninitialised when no processor can detect silence.
- `RTPBufferAlternative`, audio back ends, cryptographic suites, command line, statistics and WAV files.
