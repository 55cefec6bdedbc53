# Verified models of the MacBook driver cores

This project models, in Dafny, the parts of the Wi-Fi, touch bar and camera drivers that carry
invariants of their own, and proves those invariants for every input, every run and every
interleaving of the modelled steps.

| component | files | main results |
|---|---|---|
| flow rings (`wifi-bcm4350/src/flowring.c`) | `FlowRing`, `FlowSharing`, `FlowTable`, `FlowRace` | hash index and rings are in bijection; lookup, create and delete are a map's; exactly which destinations share a flow; exactly when stop bits stay equivalent to blocked rings; when the transmit path's flow id is one; packets leave each flow in order, none lost; no lost wake-up, and exactly when the upper mark holds, with the operations interleaved |
| NVRAM text (`wifi-bcm4350/src/firmware.c`) | `NvramSpec`, `NvramLines`, `NvramParser`, `NvramMulti`, `NvramImage`, `NvramReading` | the character machine outputs what the text means line by line; both strips select by device; exactly when the image fits its buffer, that its token is right, and what the device reads in it |
| vendor elements (`wifi-bcm4350/src/cfg80211.c`) | `VendorIe`, `VendorIeLaws`, `VendorIeTable` | after any calls the firmware holds what is saved; exactly when a call keeps, loses or restores that; exactly which requested elements those are |
| scan results (`wifi-bcm4350/src/cfg80211.c`) | `ScanList`, `ScanEvents`, `ScanBuffer` | exactly which events yield a record; the packed buffer is a duplicate-free list that summarizes what was heard |
| scan requests (`wifi-bcm4350/src/cfg80211.c`) | `ScanRequest` | accepted requests are the reported ones and at most one outstanding; exactly which steps lose one |
| common ring (`wifi-bcm4350/src/commonring.c`) | `CommonRing`, `CommonRingDevice` | stale pointers never overlap unread slots; order kept; exactly which cancellations the ring survives |
| touch bar (`touchbar/src/apple-ib-tb.c`) | `TouchBar`, `TouchBarLaws`, `TouchBarDevice` | a held key fixes the mode; holds are translated as a whole; no request is stranded; keys, Fn settings and timeouts do what their descriptions say |
| Bluetooth coexistence (`wifi-bcm4350/src/btcoex.c`) | `BtCoex` | work or timer, never both; sessions end; exactly which sessions boost Wi-Fi; registers are restored |
| scatter-gather (`wifi-bcm4350/src/bcmsdh.c`) | `SgList`, `SgUnique` | requests tile the packets within all limits, in the only way there is; a read without scatter support delivers the stream |
| camera crop (`camera/src/fthd_v4l2.c`, `camera/src/fthd_isp.c`) | `Crop` | adjustment is idempotent and meets a request as nearly as it can; the crop is the largest of its aspect; exactly which sensors it is accepted on |

`Basics` holds what they share. Where the source changes state, a class or a method with loops models it and is proved against a
function of the old state; the lemmas are about that function. Firmware, bus, timers and the peer of
a ring are steps that may happen at any time. `dafny verify dfyconfig.toml` checks everything.

## Where the code does not do what one would expect

The models follow the code. Each of these has a lemma giving the exact condition, and where the
failure needs a witness, a concrete one.

- Releasing a flow ring drops the interface's stop bit although another ring is blocked, exactly when
  all other blocked rings of the interface are not open (`StepKeepsExactIff`, `ExactThroughoutIff`).
  That takes a ring filled up before it is opened and another filled up while the interface is already
  stopped, which needs a wake-up from elsewhere, such as the bus coming up
  (wifi-bcm4350/src/core.c:1572-1580). `OverlookedRingLosesStop` is such a run; as long as nothing is
  queued for a stopped interface there is none (`GatedConservation`).
- With enqueue and dequeue interleaved, an unblocked ring can hold any number of packets: a release that
  was decided on below the low mark may run late, and nothing checks a packet that is put back
  (`UpperThroughoutIff`, `Overshoot`). With one enqueue
  and one dequeue at a time and nothing appended to a blocked ring, as the driver has it, the excess is
  two packets, and those can happen (`OrderlyRunsStayNearMark`, `OrderlyOvershoot`).
- When there is a free slot and no ring for a new flow, creation returns -ENOMEM as a word that the
  callers do not recognise and use as a flow id (`FlowWordIff`, `ErrorPassesForFlow`).
- A vendor element that the firmware refuses is saved as if it had been taken; asking for it again is
  then skipped (`CallAgreesIff`, `CallKeepsAgreementIff`, `RefusedElementIsStillSaved`).
- A suspend with the interface down leaves an outstanding scan without BUSY (`SuspendKeepsInvIff`). The
  request is still reported, by the timeout at the latest (`UnreadySuspendOnlyDelays`), unless another
  scan gets in first and takes its place (`StepLosesIff`, `UnreadySuspendLosesRequest`).
- Cancelling ring items across the start of the ring, or none with the write pointer at the start,
  leaves the pointer outside the ring (`CancelKeepsInvIff`, `ImproperCancelLeavesRing`,
  `WithdrawAcrossStart`). The driver's own batches never do (`BatchKeepsInv`, `BatchRunsAreProper`).
- A failed touch bar transfer can leave its request pending until something else asks for a run
  (`CommitStrandsIff`, `StrandedThroughoutIff`, `FailedTransferStrands`).
- Stripping a multi-device NVRAM text leaves a buffer that need not hold what is appended to it: it does
  exactly when the bytes dropped make up for those appended (`StripFitsIff`). `V2TextDoesNotFit`,
  `V2TextIsTooShort` and `V1TextWithMacDoesNotFit` are texts for which it does not.
- The search for a device's path in a v1 text stops 19 bytes before its end, so the shortest path is not
  found in the last entry (`V1FindsPathIff`, `LastPathIsMissed`).
- The walk over vendor elements reads past the buffer's end exactly for some buffers with a last element
  cut off (`CutIsReadPastIff`, `WholeOrCut`), for example `CutOffElements`.
- A scan record whose SSID claims to reach past the record makes the comparison with a stored record
  read past it (`Clashes`, `OverlongClashesWithItself`).
- A sensor too small for its aligned width, such as one a single pixel wide, gets an empty crop that the
  validator refuses (`CropAcceptedIff`, `SensorFitsAllFormatsIff`, `OnePixelWide`).
- An empty packet behind the last received byte ends a read on a host without scatter support in a
  list that has run out (`CopyBack`, `ReadPackets`, `EmptyPacketBehindBlock`).
- The comment at wifi-bcm4350/src/cfg80211.c:3615-3617 says that an on-channel signal is preserved
  against an off-channel one; the code overwrites it (`MergeKeepsRecord`). The strongest-signal
  result is therefore stated for networks all of whose measurements carry the same flag.

## Model

| member | source | states |
|---|---|---|
| FlowRing.FlowIndexBijection | wifi-bcm4350/src/flowring.c:103-165 | in every run from attach, each live ring's slot names that ring, and each occupied slot names a live ring that points back at it |
| FlowRing.StepKeepsLinked | wifi-bcm4350/src/flowring.c:227-256 | every operation keeps that correspondence, deletion (a slot emptied without a tombstone) included |
| FlowRing.ProbeComplete | wifi-bcm4350/src/flowring.c:84-94 | a probe that starts anywhere reaches every slot that passes its test, so holes hide nothing |
| FlowRing.LookupFindsLiveMatch | wifi-bcm4350/src/flowring.c:59-100 | lookup answers if and only if some occupied slot matches, and with the id of a live ring whose slot matches |
| FlowRing.LookupIsMapLookup | wifi-bcm4350/src/flowring.c:59-100 | when the address counts, lookup is the lookup in the map from (address, fifo, interface) to ids |
| FlowRing.CreateIsMapInsert | wifi-bcm4350/src/flowring.c:103-165 | creating after a failed lookup inserts one new key with an unused id, keeps keys distinct, and the same lookup then returns that id in every addressing mode; a failure changes nothing |
| FlowRing.DeleteIsMapRemove | wifi-bcm4350/src/flowring.c:227-256 | deleting removes exactly the flow's own key, so every survivor stays reachable |
| FlowRing.DistinctKeysInEveryRun | wifi-bcm4350/src/msgbuf.c:800-825 | live keys stay distinct in every run in which creation follows a failed lookup |
| FlowRing.CreateIsFound | wifi-bcm4350/src/flowring.c:103-165 | a created flow takes an unused ring and the same lookup returns it from then on |
| FlowSharing.SharesFlowIff | wifi-bcm4350/src/flowring.c:59-165 | after a packet to one destination, another is found on its flow if and only if, on the same interface: towards an access point, the access classes agree and it is no active TDLS peer or the same address; towards stations, both are groups, or it is the same station with the same class. Otherwise no flow is found |
| FlowSharing.ModesApply | wifi-bcm4350/src/flowring.c:407-507 | the modes and peers that count are those last set |
| FlowSharing.FlowIsMadeFor | wifi-bcm4350/src/flowring.c:116-160 | the slot the first flow is entered at, and with what: for a group frame everybody and fifo 0, otherwise its own address and class; hashed by class, interface and, unless towards an access point, the last byte of the address |
| FlowSharing.Constants | wifi-bcm4350/src/flowring.c:19-26 | table size, marks and what a free slot is |
| FlowSharing.MatchIsSharing | wifi-bcm4350/src/flowring.c:70-94 | a slot made for one destination passes the test of another exactly when the two share a flow |
| FlowSharing.ClassIsFifo | wifi-bcm4350/src/flowring.c:28-37 | the fifo of a priority is its 802.1D access class |
| FlowSharing.HomesApart | wifi-bcm4350/src/flowring.c:25-26 | different classes and interfaces have different home slots for the same address |
| FlowRing.FlowWordIff | wifi-bcm4350/src/msgbuf.c:665-694 | the word the transmit path goes on with is refused, or the id that a lookup then returns, if and only if there is no new flow that has a slot and gets no ring; else it is -ENOMEM |
| FlowRing.ErrorPassesForFlow | wifi-bcm4350/src/flowring.c:141-150 | with its only ring in use, the next flow gets 0xfffffff4, which is not the invalid id and whose low half names no ring |
| FlowRing.BlockKeepsJustified | wifi-bcm4350/src/flowring.c:178-224 | blocking or releasing never leaves an interface stopped without a blocked ring |
| FlowRing.BlockKeepsExactIff | wifi-bcm4350/src/flowring.c:178-224 | one block or release keeps stop bits equivalent to blocked rings if and only if it is no release whose only remaining holders are not open |
| FlowRing.StepKeepsExactIff | wifi-bcm4350/src/flowring.c:178-314 | the same for every step: it fails if and only if a deletion, or a dequeue below the low mark, releases a ring whose only remaining holders are not open |
| FlowRing.ExactThroughoutIff | wifi-bcm4350/src/flowring.c:178-314 | over every run the equivalence holds at all moments if and only if the run has no such step |
| FlowRing.StopsAreJustified | wifi-bcm4350/src/core.c:384-406 | in every run whatsoever a stopped interface has a blocked ring |
| FlowRing.FlowControlConservation | wifi-bcm4350/src/flowring.c:259-303 | in every run that fills rings before they are opened up to the high mark only, as the first packets of a flow do, and closes no blocked ring, an interface is stopped at every moment if and only if one of its rings is blocked |
| FlowRing.GatedConservation | wifi-bcm4350/src/core.c:384-406 | in every run in which no packet is queued for a stopped interface, at most one ring of each is blocked and an interface is stopped at every moment if and only if one of its rings is, whenever rings are opened, closed or deleted |
| FlowRing.UndisciplinedStopIsLost | wifi-bcm4350/src/flowring.c:199-215 | whenever the only other blocked ring is not open, a release clears the stop bit although that ring is blocked |
| FlowRing.OverlookedRingLosesStop | wifi-bcm4350/src/flowring.c:285-303 | a run from attach, with packets queued for a stopped interface, to a table where both its flows are blocked, one not yet open, and the dequeue after which it is not stopped although that one is |
| FlowRing.QueuesStayWithinMarks | wifi-bcm4350/src/flowring.c:259-314 | in every run of atomic operations a blocked ring holds at least 768 packets and an unblocked one at most 1024, reinsertion after a dequeue included |
| FlowRing.DequeueMarks | wifi-bcm4350/src/flowring.c:285-303 | the packet taken is the queue's head, and behind it there is room to put it back |
| FlowRing.StepQueue | wifi-bcm4350/src/flowring.c:227-314 | whatever a step does, a ring loses at its head what is handed on and gains at its tail what is pushed; only its deletion drops packets, all of them in order |
| FlowRing.PacketsInOrder | wifi-bcm4350/src/flowring.c:259-314 | in every run that keeps the flow its packets leave in the order they came, none lost, duplicated or taken from another flow, with failed transmissions put back |
| FlowRing.Attach | wifi-bcm4350/src/flowring.c:358-380 | the fresh table is empty and meets all these invariants |
| FlowTables.FlowTable.constructor | wifi-bcm4350/src/flowring.c:358-380 | the arrays built are the fresh table |
| FlowTables.FlowTable.IsTdlsMac | wifi-bcm4350/src/flowring.c:42-56 | the list walk finds exactly the TDLS peers |
| FlowTables.FlowTable.Address | wifi-bcm4350/src/flowring.c:70-83 | the addressing prologue: fifo by priority, group frames to one flow, station mode unless a TDLS peer |
| FlowTables.FlowTable.FindSlot | wifi-bcm4350/src/flowring.c:84-94 | the masked loop returns the first slot from home that passes |
| FlowTables.FlowTable.LookupFlow | wifi-bcm4350/src/flowring.c:59-100 | the loop over the array is the specified lookup, and what it returns is a live ring |
| FlowTables.FlowTable.CreateFlow | wifi-bcm4350/src/flowring.c:103-165 | new state and result are the specified creation, out-of-rings, out-of-memory and full-table cases included |
| FlowTables.FlowTable.BlockRing | wifi-bcm4350/src/flowring.c:178-224 | the scan over the other rings decides exactly whether another open ring of the interface is blocked; nothing but one flag and one stop bit changes |
| FlowTables.FlowTable.DeleteFlow | wifi-bcm4350/src/flowring.c:227-256 | the ring is released, unlinked and its packets dropped in order |
| FlowTables.FlowTable.EnqueueSkb | wifi-bcm4350/src/flowring.c:259-282 | appends, blocks above 1024 and returns the new length |
| FlowTables.FlowTable.DequeueSkb | wifi-bcm4350/src/flowring.c:285-303 | takes the head of an open ring and releases below 768 |
| FlowTables.FlowTable.ReinsertSkb | wifi-bcm4350/src/flowring.c:306-314 | puts a packet back at the head, leaving the flags alone |
| FlowTables.FlowTable.OpenFlow | wifi-bcm4350/src/flowring.c:332-343 | opens a live ring, changes nothing for a missing one |
| FlowTables.FlowTable.FlowFor | wifi-bcm4350/src/msgbuf.c:665-694 | lookup, and creation on a miss, return that word, error codes included, and keep keys distinct |
| FlowTables.FlowTable.TxQueueData | wifi-bcm4350/src/msgbuf.c:800-825 | a packet is turned down only for the invalid id, else queued at the low half of the word; that this names no ring happens only when the path runs out of rings |
| FlowRace.WakeupPendingInEveryRun | wifi-bcm4350/src/flowring.c:259-303 | with enqueue and dequeue interleaved at every shared read, a blocked ring below the low mark always has a thread on its way to release it |
| FlowRace.NoLostWakeup | wifi-bcm4350/src/flowring.c:268-280 | so with no operation under way a blocked ring holds at least 768 packets |
| FlowRace.WakeupLostWithoutRecheck | wifi-bcm4350/src/flowring.c:268-280 | without the repeated length check some run from the idle ring ends blocked and empty |
| FlowRace.StepKeepsUpperIff | wifi-bcm4350/src/flowring.c:259-314 | for any number of threads, a step keeps the upper mark, up to packets whose enqueue is about to block, if and only if it is no release with the queue above it and puts nothing back onto an unblocked ring at it |
| FlowRace.UpperThroughoutIff | wifi-bcm4350/src/flowring.c:259-314 | over every run the upper mark holds at all moments if and only if it has no such step |
| FlowRace.PromptReleasesKeepUpper | wifi-bcm4350/src/flowring.c:259-314 | it holds in every run that adds nothing between the decision to release and the release and puts nothing back onto a ring of 1024 packets |
| FlowRace.Overshoot | wifi-bcm4350/src/flowring.c:285-303 | for every number from 767 on, a run from the idle ring ends at rest, unblocked and with that many packets |
| FlowRace.OrderlyRunsStayNearMark | wifi-bcm4350/src/msgbuf.c:698-769 | with one enqueue and one dequeue at a time and nothing appended to a blocked ring, the queue never exceeds 1027 and an unblocked ring at rest 1026 packets |
| FlowRace.OrderlyOvershoot | wifi-bcm4350/src/flowring.c:259-314 | such a run ends at rest, unblocked and with 1026 packets |
| NvramSpec.ItemsLegal | wifi-bcm4350/src/firmware.c:110-169 | every entry the text means is key=value over legal characters, with no excluded key kept |
| NvramSpec.EntriesAreClean | wifi-bcm4350/src/firmware.c:116-131 | whatever the text, every output entry contains '=', has legal characters only, and none starts with RAW1, nor with macaddr when that is supplied |
| NvramSpec.LineFits | wifi-bcm4350/src/firmware.c:143-169 | the entries of a line with their NULs are no longer than the line with its end |
| NvramSpec.OutputFitsInput | wifi-bcm4350/src/firmware.c:143-169 | the output is never longer than the input |
| NvramSpec.AcceptedFits | wifi-bcm4350/src/firmware.c:157-158 | what is output before the cut-off stays below 64000 bytes |
| NvramLines.TextMeans | wifi-bcm4350/src/firmware.c:66-189 | a text put together from lines means their entries, one after the other: blanks, comments, words without '=', what follows an entry and lines of excluded keys contribute nothing else |
| NvramLines.LineMeans | wifi-bcm4350/src/firmware.c:87-189 | the same for one line, wherever it stands |
| NvramLines.WellformedIff | wifi-bcm4350/src/firmware.c:72-85 | which bytes a key and a value may have, and which keys are left out, by numbers and names |
| NvramLines.Characters | wifi-bcm4350/src/firmware.c:66-85 | the classes of characters |
| NvramParsers.NvramParser.constructor | wifi-bcm4350/src/firmware.c:206-230 | the initial state, with a buffer for text, defaults, MAC, padding and token |
| NvramParsers.NvramParser.HandleIdle | wifi-bcm4350/src/firmware.c:87-108 | advances, or stays in place at a lower rank, and loses no entry of the remaining text |
| NvramParsers.NvramParser.HandleKey | wifi-bcm4350/src/firmware.c:110-141 | the same for the key state; a key without '=' gives up its line |
| NvramParsers.NvramParser.TakeKey | wifi-bcm4350/src/firmware.c:116-131 | the '=' ends in the value state, or for an excluded key in the comment state |
| NvramParsers.NvramParser.MarkKey | wifi-bcm4350/src/firmware.c:122-127 | the three flags record exactly whether such a key was seen so far |
| NvramParsers.KeyPrefix | wifi-bcm4350/src/firmware.c:118-131 | comparing at the entry's start sees no further than its key |
| NvramParsers.NvramParser.HandleValue | wifi-bcm4350/src/firmware.c:143-169 | the same progress for the value state, whose end consumes nothing |
| NvramParsers.NvramParser.FinishEntry | wifi-bcm4350/src/firmware.c:152-165 | a complete entry is appended with one NUL inside the buffer, or the machine stops exactly when it does not fit |
| NvramParsers.NvramParser.HandleComment | wifi-bcm4350/src/firmware.c:171-189 | moves behind the next newline or NUL, losing no entry of a later line |
| NvramParsers.NvramParser.Step | wifi-bcm4350/src/firmware.c:197-204 | any call through the table lowers (remaining input, state rank) |
| NvramParsers.NvramParser.Parse | wifi-bcm4350/src/firmware.c:411-415 | for every NUL-terminated text the loop ends and the buffer holds exactly the text's entries in order up to the cut-off; the flags are those of the keys seen |
| NvramParsers.RenderRoundTrip | wifi-bcm4350/src/firmware.c:390-394 | a text of one entry per line means exactly these entries, behind any other text |
| NvramParsers.RenderItems | wifi-bcm4350/src/firmware.c:390-394 | and exactly these keys |
| NvramMulti.SelectedFits | wifi-bcm4350/src/firmware.c:289-307 | the write index never passes the read index, in either strip, and a skipped entry leaves its room |
| NvramMulti.DevpathFreesRoom | wifi-bcm4350/src/firmware.c:268-310 | the found devpath entry frees 17 bytes, enough for the default board revision |
| NvramMulti.KeptAndDropped | wifi-bcm4350/src/firmware.c:284-366 | kept bytes and dropped bytes, the marks of kept entries and all other entries, are all there are, in either strip |
| NvramMulti.NoneBehind | wifi-bcm4350/src/firmware.c:346-362 | the entries the v2 scan does not reach cannot begin with the path |
| NvramMulti.HitIsSelect | wifi-bcm4350/src/firmware.c:277-292 | the promoted 8-bit comparison picks exactly the entries with the id and a colon in front; ids below '0' pick none |
| NvramMulti.MatchAt | wifi-bcm4350/src/firmware.c:274-276 | the bounded comparison decides the prefix without leaving the entry |
| NvramMulti.EntryMatches | wifi-bcm4350/src/firmware.c:262-276 | the test is exactly "devpathX" for this domain and bus, PCI or PCI Express |
| NvramMulti.FindDevpath | wifi-bcm4350/src/firmware.c:262-286 | the search returns the virtual id of the first such entry and stays inside the data |
| NvramMulti.CopyOne | wifi-bcm4350/src/firmware.c:292-306 | one turn of either copy loop takes the entry without its mark if it is the device's, and steps to the next |
| NvramMulti.CopySelected | wifi-bcm4350/src/firmware.c:289-310 | the result of either copy loop is the selected entries, in order; the board-revision flag is theirs |
| NvramMulti.StripMultiV1 | wifi-bcm4350/src/firmware.c:237-316 | the strip as a whole, failures as an empty result included, leaving at least 17 bytes free |
| NvramMulti.IsSelected | wifi-bcm4350/src/firmware.c:292-344 | the tests of both strips decide whether an entry carries the device's mark, inside the entry |
| NvramMulti.StripMultiV2 | wifi-bcm4350/src/firmware.c:324-366 | the v2 strip leaves exactly the entries with the path in front, without it and in order; for data shorter than the path, where its bound wraps, it says so |
| NvramImage.TokenHalves | wifi-bcm4350/src/firmware.c:441-443 | the token's low half is the word count and its high half the complement |
| NvramImage.ImageLayout | wifi-bcm4350/src/firmware.c:434-448 | an image is whole words: the entries, one to four NULs, and a token that counts the words before it |
| NvramImage.ResultIsWellLaidOut | wifi-bcm4350/src/firmware.c:395-449 | whatever the text, the MAC and the device, an image that comes out is whole words closed by a right token |
| NvramImage.SingleDeviceFits | wifi-bcm4350/src/firmware.c:206-230 | the text of a single device always fits its allocation, with defaults, MAC, padding and token |
| NvramImage.V1WithoutMacFits | wifi-bcm4350/src/firmware.c:251-310 | so does a v1 text without a MAC |
| NvramImage.StripFitsIff | wifi-bcm4350/src/firmware.c:247-388 | a text for several devices does not fit if and only if what is appended, with padding, exceeds what the strip drops by more than three bytes or, for v2, the data is shorter than the path |
| NvramImage.V2TextDoesNotFit | wifi-bcm4350/src/firmware.c:324-388 | "pcie/0/1/a=b" alone: 24 bytes for 21 |
| NvramImage.V2TextIsTooShort | wifi-bcm4350/src/firmware.c:346 | "pcie/=" alone is shorter than the path of any device |
| NvramImage.V1TextWithMacDoesNotFit | wifi-bcm4350/src/firmware.c:237-388 | "devpath0=pcie/0/1/" and "0:a=b" with any MAC: 52 bytes for 33 |
| NvramImage.Append | wifi-bcm4350/src/firmware.c:368-388 | an added default or MAC entry ends in one NUL, inside the buffer |
| NvramImage.Close | wifi-bcm4350/src/firmware.c:434-448 | padding and token turn the buffer's contents into their image, inside the buffer |
| NvramImage.Finish | wifi-bcm4350/src/firmware.c:368-448 | defaults, MAC, padding and token give the image of the completed entries if it fits the buffer; where it does not, the outcome says so |
| NvramImage.NvramStrip | wifi-bcm4350/src/firmware.c:395-449 | for every text, MAC and device the result is the image of the entries these determine, none if there are none, or that a buffer is too small |
| NvramReading.ImageIsRead | wifi-bcm4350/src/firmware.c:368-393 | reading strings off an image up to the first empty one gives back exactly the entries it was made of |
| NvramReading.MacIsRead | wifi-bcm4350/src/firmware.c:380-388 | a decoder of hexadecimal pairs gives the MAC back from the entry behind "macaddr=" |
| NvramReading.LastEntryIsMac | wifi-bcm4350/src/firmware.c:395-449 | whatever the text and the device, if an image results and a MAC is given, its last entry decodes to that MAC |
| NvramReading.SingleDeviceImage | wifi-bcm4350/src/firmware.c:395-449 | from the text of key=value lines of one device the device reads exactly those lines in order, then boardrev=0xff if none has it, then the MAC entry |
| NvramReading.FinalIsRead | wifi-bcm4350/src/firmware.c:368-393 | the completed entries are read back, defaults and MAC behind the others |
| NvramReading.Names | wifi-bcm4350/src/firmware.c:116-131 | the byte constants are the names RAW1, devpath, pcie/, boardrev, macaddr |
| NvramReading.DecimalIsRead | wifi-bcm4350/src/firmware.c:262-265 | the numerals in a path have their number as value and no leading zero |
| NvramReading.V1KeepsOwn | wifi-bcm4350/src/firmware.c:237-316 | from the entries devpath of the device, its own ones marked with its id, and foreign ones, the strip leaves exactly its own, unmarked and in order |
| NvramReading.V1NeedsDevpath | wifi-bcm4350/src/firmware.c:267-284 | without any devpath entry nothing is left |
| NvramReading.V1FindsPathIff | wifi-bcm4350/src/firmware.c:267-284 | behind entries without a path, the path of the device is found if and only if more than 19 bytes are left from it on |
| NvramReading.LastPathIsMissed | wifi-bcm4350/src/firmware.c:267-284 | so the shortest path, as the last entry, is missed and nothing is left |
| NvramReading.V2KeepsOwn | wifi-bcm4350/src/firmware.c:324-366 | from the entries with the path of the device in front and others without it, exactly the former are left, without the path |
| NvramReading.PathIsRead | wifi-bcm4350/src/firmware.c:342-343 | that path is pcie/, domain, /, bus, / |
| VendorIe.EncodeInjective | wifi-bcm4350/src/cfg80211.c:4942-4947 | equal bytes are equal elements, which is what the comparison relies on |
| VendorIe.WholeSplits | wifi-bcm4350/src/cfg80211.c:4830-4838 | any bytes are whole elements and a rest that is none |
| VendorIe.WholeRoundTrip | wifi-bcm4350/src/cfg80211.c:4830-4838 | encoded elements are found again with no rest |
| VendorIe.CutOffElements | wifi-bcm4350/src/cfg80211.c:4796-4841 | a single byte, and a vendor element cut off behind its type, make the walk read past the end |
| VendorIe.PickStored | wifi-bcm4350/src/cfg80211.c:4949-4950 | re-parsing stored bytes returns exactly what was stored |
| VendorIe.FitBudget | wifi-bcm4350/src/cfg80211.c:4975-4989 | accepted elements with their command headers exceed the budget by at most two bytes, the slack of the size test |
| VendorIe.FitIdempotent | wifi-bcm4350/src/cfg80211.c:4975-4989 | what was accepted once is accepted again as a whole |
| VendorIe.FittedIsStored | wifi-bcm4350/src/cfg80211.c:4970-5009 | what a call saves is again a list that can be stored |
| VendorIe.CommandsRoundTrip | wifi-bcm4350/src/cfg80211.c:4843-4855 | the command stream decodes to exactly the commands written |
| VendorIe.DecodedIsEncoded | wifi-bcm4350/src/cfg80211.c:4844-4855 | whatever bytes the firmware can read as commands are the encoding of the commands it reads |
| VendorIe.ExecuteAll | wifi-bcm4350/src/cfg80211.c:4952-5008 | a list of adds, or of deletes, changes what the firmware holds for one frame type by just these elements |
| VendorIe.CommandsFitBuffer | wifi-bcm4350/src/cfg80211.c:4887-5008 | the deletes and adds of any call take at most 1028 of the 2048 bytes |
| VendorIe.UpdateEffect | wifi-bcm4350/src/cfg80211.c:4949-5015 | whatever the firmware held, the bytes sent take away what was saved and add what is new, for that frame type only |
| VendorIe.UpdateReplaces | wifi-bcm4350/src/cfg80211.c:4949-5015 | from agreement, the bytes sent make the firmware hold exactly the new elements for that frame type, others unchanged |
| VendorIe.ShortcutIsSound | wifi-bcm4350/src/cfg80211.c:4941-4947 | a call skipped because the bytes are equal would have changed neither the saved elements nor the firmware |
| VendorIe.CallAgreesIff | wifi-bcm4350/src/cfg80211.c:4857-5020 | from any state, exactly when a frame type agrees after a call: a taken call repairs it if and only if the firmware held nothing that was not saved; a skipped call repairs nothing |
| VendorIe.CallKeepsAgreementIff | wifi-bcm4350/src/cfg80211.c:4857-5020 | from agreement, a call keeps it if and only if the firmware takes the commands, or the call is refused before sending, or it would save what is saved already |
| VendorIe.RefusedElementIsStillSaved | wifi-bcm4350/src/cfg80211.c:5001-5015 | a first element the firmware refuses is saved, asking again is skipped, asking for nothing repairs the agreement |
| VendorIe.Run | wifi-bcm4350/src/cfg80211.c:4857-5020 | after any sequence of calls the firmware took, it holds for each frame type what is saved |
| VendorIeLaws.CallSavesTaken | wifi-bcm4350/src/cfg80211.c:4857-5020 | after a call that the firmware takes, what is saved and held for the frame type are the first of the requested vendor elements of at least five bytes that are no WPA elements: five, or all, or as many as fit 512 bytes with their headers; other frame types keep theirs |
| VendorIeLaws.AllWantedAreHeld | wifi-bcm4350/src/cfg80211.c:4857-5020 | so when there are at most five and they fit, all of them are, in order |
| VendorIeLaws.CallKeepsWanted | wifi-bcm4350/src/cfg80211.c:4800-4835 | a call, taken or refused, never makes a WPA, short or other element saved or held |
| VendorIeLaws.Attempts | wifi-bcm4350/src/cfg80211.c:4857-5020 | nor does any sequence of calls |
| VendorIeLaws.QuietIff | wifi-bcm4350/src/cfg80211.c:4931-4947 | a call sends nothing, and so cannot fail, if and only if the first five of the wanted elements are those saved |
| VendorIeLaws.TurnedDown | wifi-bcm4350/src/cfg80211.c:4889-4926 | which calls are refused for their frame type or their length, changing nothing |
| VendorIeLaws.CommandLayout | wifi-bcm4350/src/cfg80211.c:4844-4855 | the bytes of a command: "add" or "del", count one, frame type, element |
| VendorIeLaws.CutIsReadPastIff | wifi-bcm4350/src/cfg80211.c:4787-4841 | a buffer whose last element is cut off is read past if and only if it comes to that element with fewer than five found and would copy it or has not even its length |
| VendorIeLaws.WholeIsSafe | wifi-bcm4350/src/cfg80211.c:4787-4841 | whole elements are never read past |
| VendorIeLaws.WholeOrCut | wifi-bcm4350/src/cfg80211.c:4787-4841 | every buffer is one of these two kinds |
| VendorIeLaws.StorableIsWanted | wifi-bcm4350/src/cfg80211.c:4800-4816 | the parser keeps an element exactly when its id is 221, its body at least five bytes and not 00 50 f2 followed by 1 or 2 |
| VendorIeLaws.PickIsWanted | wifi-bcm4350/src/cfg80211.c:4787-4841 | the parser keeps the first such elements, up to its limit |
| VendorIeLaws.FitTakes | wifi-bcm4350/src/cfg80211.c:4970-5005 | the save loop takes elements while they fit and stops at the first that does not |
| VendorIeTables.ParseVndrIes | wifi-bcm4350/src/cfg80211.c:4786-4841 | for any bytes the pointer walk finds the first five storable elements, each where it lies, or reads past the end, exactly when it gets to a rest that looks like an element to keep or is too short to tell |
| VendorIeTables.EmitCommand | wifi-bcm4350/src/cfg80211.c:4843-4855 | one command is written behind the others |
| VendorIeTables.Collect | wifi-bcm4350/src/cfg80211.c:4929-4939 | the bytes of the parsed elements, concatenated |
| VendorIeTables.EmitDels | wifi-bcm4350/src/cfg80211.c:4952-4967 | one delete for each old element |
| VendorIeTables.EmitAdds | wifi-bcm4350/src/cfg80211.c:4970-5009 | one add for each element that fits, and exactly these are saved |
| VendorIeTables.Rebuild | wifi-bcm4350/src/cfg80211.c:4949-5009 | deletes, then adds, inside the command buffer |
| VendorIeTables.Vif.Commit | wifi-bcm4350/src/cfg80211.c:5010-5019 | commands are sent only if there are any; a refusal is returned |
| VendorIeTables.Vif.SetMgmtIes | wifi-bcm4350/src/cfg80211.c:4857-5020 | for any bytes and whatever earlier calls did, saved bytes, firmware contents and result are the specified call's, or the walk reads past the end; only a refusal by the firmware can end an agreement |
| VendorIeTables.Vif.Change | wifi-bcm4350/src/cfg80211.c:4929-5020 | the same behind the checks of frame type and length |
| VendorIeTables.Vif.constructor | wifi-bcm4350/src/cfg80211.c:6045-6078 | nothing saved and nothing held agree |
| ScanList.MergeKeepsRecord | wifi-bcm4350/src/cfg80211.c:3587-3624 | a merge keeps length and flag; measurements of one kind give the stronger signal, of two kinds the off-channel one |
| ScanList.MergeKeepsKey | wifi-bcm4350/src/cfg80211.c:3599-3620 | a merge keeps the network, also when an SSID longer than its field covers the signal |
| ScanList.ControlKeepsRecord | wifi-bcm4350/src/cfg80211.c:3366-3370 | filling in the control channel keeps signal and flag and, for an SSID of at most 69 bytes, the network |
| ScanList.Find | wifi-bcm4350/src/cfg80211.c:3710-3717 | the search stops at the first stored record of the same BSSID, band and SSID |
| ScanList.InsertKeepsList | wifi-bcm4350/src/cfg80211.c:3703-3722 | a result keeps the list free of duplicates and within 65000 bytes |
| ScanList.InsertKeepsSummary | wifi-bcm4350/src/cfg80211.c:3587-3722 | one more result with room keeps: stored networks are exactly those heard, each with its strongest signal |
| ScanList.ScanListSummarizes | wifi-bcm4350/src/cfg80211.c:3653-3722 | the same after any run of results, over those not dropped for lack of room |
| ScanBuffers.Usable | wifi-bcm4350/src/cfg80211.c:3653-3701 | a record that passes the checks states its own length and fits an empty list |
| ScanEvents.EventTakenIff | wifi-bcm4350/src/cfg80211.c:3653-3701 | the event built from a header with count one and a well-formed record that fits yields that record if and only if a scan is outstanding, no P2P search claims it, and ad-hoc is supported or capability bit 1 is clear |
| ScanEvents.OnlySuchEvents | wifi-bcm4350/src/cfg80211.c:3653-3701 | conversely every event that yields a record is such an event, up to bytes behind its length |
| ScanEvents.FirstRecordIsStored | wifi-bcm4350/src/cfg80211.c:3702-3722 | on an empty list that record is stored as it is |
| ScanEvents.FieldsInPlace | wifi-bcm4350/src/fwil_types.h:314-348 | each field of a record built in the order of the structure lies at the offset the handler uses |
| ScanEvents.RecordIsRead | wifi-bcm4350/src/cfg80211.c:3587-3624 | what the handler reads in a built record: network by BSSID, band and SSID, signed signal, on-channel flag |
| ScanEvents.ClashIff | wifi-bcm4350/src/cfg80211.c:3600-3602 | comparing two records reads past one if and only if BSSID, band and SSID length agree and that length goes beyond the shorter record |
| ScanEvents.FilledIn | wifi-bcm4350/src/cfg80211.c:3345-3370 | control channels are filled in for the records reported and for one refused after them, not for one that is too long |
| ScanEvents.AllReportedIff | wifi-bcm4350/src/cfg80211.c:3418-3441 | all records are reported if and only if none is over 2048 bytes or refused |
| ScanEvents.ControlIsFilledIn | wifi-bcm4350/src/cfg80211.c:3366-3370 | a missing control channel becomes the one its channel specification decodes to; nothing else changes |
| ScanBuffers.OverlongClashesWithItself | wifi-bcm4350/src/cfg80211.c:3599-3602 | a record whose SSID claims to reach past it makes the comparison read past it on its second arrival |
| ScanBuffers.ScanBuffer.constructor | wifi-bcm4350/src/cfg80211.c:1518-1521 | the buffer starts as the empty list |
| ScanBuffers.ScanBuffer.Reset | wifi-bcm4350/src/cfg80211.c:1518-1521 | a new scan starts with the empty list |
| ScanBuffers.ScanBuffer.Located | wifi-bcm4350/src/cfg80211.c:3409-3416 | stepping by the stored lengths meets each record exactly where it is |
| ScanBuffers.ScanBuffer.SameNetwork | wifi-bcm4350/src/cfg80211.c:3594-3602 | the byte comparison decides equality of BSSID, band and SSID, or comes to SSIDs that reach past a record |
| ScanBuffers.ScanBuffer.StoreRssi | wifi-bcm4350/src/cfg80211.c:3605-3620 | two bytes patched in place are the merged record; all other records are untouched |
| ScanBuffers.ScanBuffer.PatchByte | wifi-bcm4350/src/cfg80211.c:3605-3620 | one byte of a record changes in place and nothing else of the list |
| ScanBuffers.ScanBuffer.FillControl | wifi-bcm4350/src/cfg80211.c:3366-3370 | a missing control channel is filled in where the record stands |
| ScanBuffers.ScanBuffer.CompareUpdate | wifi-bcm4350/src/cfg80211.c:3587-3624 | a record of the same network is merged in place, any other left alone |
| ScanBuffers.ScanBuffer.Store | wifi-bcm4350/src/cfg80211.c:3718-3722 | the record is appended and count and length agree with the list again |
| ScanBuffers.ScanBuffer.PartialResult | wifi-bcm4350/src/cfg80211.c:3644-3722 | for any event: its record is inserted if it is usable and a scan is under way, unless the search comes, before a match, to a comparison that reads past a record; the buffer always decodes to exactly count records of the stated total length, no two the same network |
| ScanBuffers.ScanBuffer.Place | wifi-bcm4350/src/cfg80211.c:3703-3722 | the search and what follows from it |
| ScanBuffers.Reported | wifi-bcm4350/src/cfg80211.c:3434-3439 | reporting stops at the first record that is too long or refused with its control channel |
| ScanBuffers.ScanBuffer.InformBss | wifi-bcm4350/src/cfg80211.c:3345-3441 | exactly the stored records are reported, in order and with their control channels, up to that one, and none for an unknown version; the list keeps its layout and, for SSIDs of at most 69 bytes, its networks apart |
| ScanRequest.StepKeepsInv | wifi-bcm4350/src/cfg80211.c:1183-1261 | every step keeps: no internal scan and request at once, either implies BUSY, reported requests are the accepted ones but the outstanding |
| ScanRequest.ScanConservation | wifi-bcm4350/src/cfg80211.c:1529-1596 | over every interleaving accepted requests equal reports plus at most one outstanding, in order |
| ScanRequest.RequestOnlyLeavesReported | wifi-bcm4350/src/cfg80211.c:1183-1261 | an outstanding request disappears only by being reported |
| ScanRequest.InternalScanTakesOver | wifi-bcm4350/src/cfg80211.c:3809-3833 | an internal scan ends whatever was under way, reports an interrupted request, and its final event reports exactly its own buckets |
| ScanRequest.AnswerIff | wifi-bcm4350/src/cfg80211.c:1529-1596 | exactly when a request is refused, put off or accepted: one that goes wrong, in the firmware or before, is not accepted and leaves no trace |
| ScanRequest.FirstIsQuiet | wifi-bcm4350/src/cfg80211.c:3737-3748 | at first nothing is under way and a request is taken |
| ScanRequest.OnlySoundRequestsAreKnown | wifi-bcm4350/src/cfg80211.c:1529-1596 | in every run a request that the interface or the firmware refused is never accepted, outstanding or reported |
| ScanRequest.CompletionReports | wifi-bcm4350/src/cfg80211.c:1183-1261 | a completion leaves nothing outstanding and no timer, and reports the buckets of an internal scan unless aborted, or else the request |
| ScanRequest.FinalEventIff | wifi-bcm4350/src/cfg80211.c:3723-3734 | exactly which final events complete the scan |
| ScanRequest.AbortEnds | wifi-bcm4350/src/cfg80211.c:3552-3563 | an abort reports the outstanding request, drops buckets unreported and clears both bits |
| ScanRequest.CriticalProtocol | wifi-bcm4350/src/cfg80211.c:5776-5807 | a critical protocol aborts scans and has new ones put off until it ends |
| ScanRequest.TimeoutEnds | wifi-bcm4350/src/cfg80211.c:3565-3585 | an expiring timer brings the worker exactly if something is outstanding, and that completes it as aborted |
| ScanRequest.InternalScanFails | wifi-bcm4350/src/cfg80211.c:3809-3833 | an internal scan that cannot start leaves nothing outstanding |
| ScanRequest.StepLosesIff | wifi-bcm4350/src/cfg80211.c:1183-1261 | from any state a step loses a request if and only if a new one is stored over it while the driver is not busy, or a completion finds buckets and a request |
| ScanRequest.ConservedThroughoutIff | wifi-bcm4350/src/cfg80211.c:1183-1596 | over every run, unready suspends included, no request is lost if and only if no step is one of those |
| ScanRequest.TimedInEveryRun | wifi-bcm4350/src/cfg80211.c:1585-1587 | in every run an outstanding request has its timer armed or its timeout work queued |
| ScanRequest.UnreadySuspendOnlyDelays | wifi-bcm4350/src/cfg80211.c:3565-3585 | a request left over by an unready suspend is reported by the timeout |
| ScanRequest.SuspendKeepsInvIff | wifi-bcm4350/src/cfg80211.c:4268-4323 | a suspend keeps "an outstanding scan implies BUSY" if and only if the interface is ready or no scan is outstanding; it loses no request by itself |
| ScanRequest.UnreadySuspendLosesRequest | wifi-bcm4350/src/cfg80211.c:1542-1567 | a concrete run in which the next request is accepted over one left without BUSY, which is then never reported |
| ScanRequest.Cfg.constructor | wifi-bcm4350/src/cfg80211.c:3739-3748 | the fresh state meets the invariant |
| ScanRequest.Cfg.NotifyEscanComplete | wifi-bcm4350/src/cfg80211.c:1183-1261 | every bucket of an internal scan is reported once unless aborted, else the request; afterwards nothing is outstanding |
| ScanRequest.Cfg.AbortScanning | wifi-bcm4350/src/cfg80211.c:3552-3563 | an abort ends whatever is outstanding and leaves neither status bit |
| ScanRequest.Cfg.UserScanRequest | wifi-bcm4350/src/cfg80211.c:1529-1596 | a request is accepted, turned away or taken back, keeping the invariant |
| ScanRequest.Cfg.StartInternalEscan | wifi-bcm4350/src/cfg80211.c:3809-3833 | an internal scan first ends any other, keeping the invariant |
| ScanRequest.Cfg.EscanFinal | wifi-bcm4350/src/cfg80211.c:3723-3734 | a final event reports what is outstanding and is ignored otherwise |
| ScanRequest.Cfg.SuspendWiphy | wifi-bcm4350/src/cfg80211.c:4268-4323 | the suspend step, ready or not |
| CommonRing.AvailableIsCount | wifi-bcm4350/src/commonring.c:73-78 | the pointer arithmetic is depth minus the number of items between the pointers, across the wrap |
| CommonRing.PosUnique | wifi-bcm4350/src/commonring.c:108-139 | two items less than a ring apart never share a slot |
| CommonRing.StaleSpaceIsSafe | wifi-bcm4350/src/commonring.c:108-139 | space from the stale pointer never exceeds the real space, and no slot of a reservation holds an unread item |
| CommonRing.ReserveKeepsInv | wifi-bcm4350/src/commonring.c:142-178 | a reservation fails if and only if at most one slot is really free; else it is contiguous, not empty, and keeps every unread item |
| CommonRing.PeerReadsInOrder | wifi-bcm4350/src/commonring.c:181-194 | the peer finds in memory exactly the next items in the order written |
| CommonRing.StepKeepsInvIff | wifi-bcm4350/src/commonring.c:68-204 | every step of driver and peer keeps the ring's invariant and what was published, if and only if it is no improper withdrawal |
| CommonRing.PublishedIsStable | wifi-bcm4350/src/commonring.c:181-204 | no run whose withdrawals are proper ever changes a published item |
| CommonRing.RingSafety | wifi-bcm4350/src/commonring.c:108-194 | over every run the invariant holds to the end if and only if all withdrawals are proper, and then at most depth-1 slots are in use and what the peer will find is what was published, in order |
| CommonRing.AskIff | wifi-bcm4350/src/commonring.c:68-105 | the answer is yes if and only if more than one slot is really free and, after a failure, more than an eighth of the ring; the peer's pointer is looked at again only when space seems short |
| CommonRing.StaysClosed | wifi-bcm4350/src/commonring.c:68-105 | after a failed reservation no run, proper or not, reopens the ring but through a question with more than an eighth free |
| CommonRing.CancelRestoresIff | wifi-bcm4350/src/commonring.c:197-204 | cancelling restores the earlier pointer if and only if it does not reach back across the start and, at the start, cancels something |
| CommonRing.CancelKeepsInvIff | wifi-bcm4350/src/commonring.c:197-204 | a cancellation leaves the ring sound if and only if it covers unpublished items only, none behind the start and, at the start, at least one |
| CommonRing.ImproperCancelLeavesRing | wifi-bcm4350/src/commonring.c:197-204 | otherwise the pointer is wrong and, in a ring of at most 32768 items, outside it |
| CommonRing.WithdrawAcrossStart | wifi-bcm4350/src/commonring.c:197-204 | a run of a ring of four, from empty, that leaves the write pointer at 65535 |
| CommonRing.BatchKeepsInv | wifi-bcm4350/src/msgbuf.c:917-946 | a batch never wraps in the middle, so whatever part of it the driver cancels, exactly the kept items are written and the pointer stands behind them |
| CommonRing.BatchRunsAreProper | wifi-bcm4350/src/msgbuf.c:917-946 | so all runs that cancel parts of batches only are safe |
| CommonRingDevice.TxRing.constructor | wifi-bcm4350/src/commonring.c:31-48 | a configured ring is empty and valid |
| CommonRingDevice.TxRing.WriteAvailable | wifi-bcm4350/src/commonring.c:68-105 | the retry jump computes the specified answer and hysteresis flag |
| CommonRingDevice.TxRing.ReserveForWriteMultiple | wifi-bcm4350/src/commonring.c:142-178 | the returned slots are the ones behind the written items and do not wrap; the new state is the specified reservation |
| CommonRingDevice.TxRing.ReserveForWrite | wifi-bcm4350/src/commonring.c:108-139 | one slot, refused if and only if at most one is really free |
| CommonRingDevice.TxRing.WriteComplete | wifi-bcm4350/src/commonring.c:181-194 | all written items become visible |
| CommonRingDevice.TxRing.WriteCancel | wifi-bcm4350/src/commonring.c:197-204 | the pointer is computed in 16 bits for every count; the ring stays valid if and only if the count is proper |
| CommonRingDevice.TxRing.DeviceReads | wifi-bcm4350/src/commonring.c:181-194 | the peer, at any time, reads the next published items |
| CommonRingDevice.RxRing.constructor | wifi-bcm4350/src/commonring.c:31-48 | a configured ring to read from is empty and valid |
| CommonRingDevice.RxRing.GetReadPtr | wifi-bcm4350/src/commonring.c:207-222 | the stretch returned is the longest without a wrap and holds the next items in order |
| CommonRingDevice.RxRing.ReadComplete | wifi-bcm4350/src/commonring.c:225-236 | handing items back advances the read position across the wrap |
| TouchBar.StepKeepsInFlight | touchbar/src/apple-ib-tb.c:365-405 | no step withdraws a value while the worker transfers it |
| TouchBar.CommitKeepsEffective | touchbar/src/apple-ib-tb.c:385-405 | whatever the transfers return, a commit leaves the mode and display in force as they were and keeps every value set after its snapshot |
| TouchBar.HeldKeyFixesMode | touchbar/src/apple-ib-tb.c:525-585 | no step changes the mode in force while a touch bar key is down |
| TouchBar.HoldIsConsistent | touchbar/src/apple-ib-tb.c:722-807 | through any steps that do not release the key, its events are translated as the hold began, or swallowed |
| TouchBar.PressStartsHold | touchbar/src/apple-ib-tb.c:769-785 | a press that is not swallowed begins such a hold |
| TouchBar.KeyHoldConsistency | touchbar/src/apple-ib-tb.c:722-807 | press, repeats and release of a hold are all translated or all not, across any interleaving, unless the bar is off at them |
| TouchBar.StepKeepsServed | touchbar/src/apple-ib-tb.c:352-475 | when transfers succeed every step keeps: a waiting value has a run queued or is the one in flight |
| TouchBar.NoStrandedRequest | touchbar/src/apple-ib-tb.c:352-449 | so no interleaving strands a request |
| TouchBar.CommitStrandsIff | touchbar/src/apple-ib-tb.c:385-475 | a commit strands a request if and only if a transfer failed, no run is queued and the timeouts bring none, not even after a dim write |
| TouchBar.StrandedUntilAsked | touchbar/src/apple-ib-tb.c:525-585 | a stranded request is served if and only if an event wants something else or is forced |
| TouchBar.StrandedThroughoutIff | touchbar/src/apple-ib-tb.c:352-585 | it stays stranded all along a run if and only if the run has no such event |
| TouchBar.FailedTransferStrands | touchbar/src/apple-ib-tb.c:385-453 | a concrete run that does |
| TouchBar.UndisturbedRunSettles | touchbar/src/apple-ib-tb.c:352-449 | an undisturbed worker run brings the device to what was in force and leaves nothing pending |
| TouchBar.HeldBackModeIsApplied | touchbar/src/apple-ib-tb.c:543-563 | in every run, whenever no key is down and no setting is half stored, the mode in force is the one settings and Fn key ask for: a change held back by a key, or by a store that has not yet reached its locked part, is made up for |
| TouchBar.Probed | touchbar/src/apple-ib-tb.c:1106-1121 | the state after probing meets all these invariants |
| TouchBarLaws.ModeFollowsSettings | touchbar/src/apple-ib-tb.c:502-563 | in every run from probing, with no key down and no setting half stored: off if disabled, function keys for setting 0, for 1 with Fn and for 2 without, special keys otherwise |
| TouchBarLaws.FnSettings | touchbar/src/apple-ib-tb.c:95-100 | the four Fn settings mean what their description says |
| TouchBarLaws.PressOutput | touchbar/src/apple-ib-tb.c:722-807 | what a press or repeat gives: swallowed when off, the special key of a function key in special mode, itself otherwise |
| TouchBarLaws.ThirteenKeys | touchbar/src/apple-ib-tb.c:698-720 | which key codes are the bar's, each with its own slot |
| TouchBarLaws.SpecialKeys | touchbar/src/apple-ib-tb.c:177-190 | the special key of each function key |
| TouchBarLaws.StoresAreChecked | touchbar/src/apple-ib-tb.c:617-696 | which values a setting takes; others change nothing |
| TouchBarLaws.CalculatedDimTimeout | touchbar/src/apple-ib-tb.c:599-671 | a calculated dim timeout is 30 seconds, or a third of the time if less, before the idle timeout, also when that changes later |
| TouchBarLaws.GivenDimTimeout | touchbar/src/apple-ib-tb.c:599-671 | a given one stays when the idle timeout changes |
| TouchBarLaws.StoreQueues | touchbar/src/apple-ib-tb.c:587-696 | storing a timeout always brings a run |
| TouchBarLaws.FnStoreQueues | touchbar/src/apple-ib-tb.c:681-696 | storing a Fn setting does only if it changes something |
| TouchBarLaws.WantedDisplay | touchbar/src/apple-ib-tb.c:76-92 | the display the timeouts ask for while the bar is used |
| TouchBarLaws.InputRestoresDisplay | touchbar/src/apple-ib-tb.c:525-585 | after any input the display in force is the wanted one, but that a held key keeps it from going off |
| TouchBarLaws.TimeoutsTakeEffect | touchbar/src/apple-ib-tb.c:411-475 | what the worker does after how many idle seconds: off, dimmed and back for the idle timeout, later, or nothing |
| TouchBarLaws.HeldKeyKeepsDisplay | touchbar/src/apple-ib-tb.c:411-475 | while a key is down the display is neither dimmed nor turned off |
| TouchBarLaws.NewerRequestIsServed | touchbar/src/apple-ib-tb.c:385-449 | what the device has and what is pending after a transfer; a newer request, and only that, brings another run at once |
| TouchBarLaws.DimIsRecorded | touchbar/src/apple-ib-tb.c:462-475 | a dim or off write is recorded if it succeeds, and the run for the idle timeout follows |
| TouchBarLaws.ProbeConfigures | touchbar/src/apple-ib-tb.c:1106-1121 | one undisturbed run after probing brings the device to the configured mode and display, an invalid Fn setting counting as 1 |
| TouchBarDevice.AppleTb.constructor | touchbar/src/apple-ib-tb.c:1106-1121 | the device structure after probing is that state |
| TouchBarDevice.AppleTb.AnyTbKeyPressed | touchbar/src/apple-ib-tb.c:341-345 | the scan decides whether any key is down |
| TouchBarDevice.AppleTb.GetFnTbMode | touchbar/src/apple-ib-tb.c:502-520 | the mode the Fn setting and key ask for |
| TouchBarDevice.AppleTb.UpdateTouchbarNoLock | touchbar/src/apple-ib-tb.c:525-585 | asks for the wanted mode and display only where not in force and no key forbids it, and then queues a run |
| TouchBarDevice.AppleTb.HidEvent | touchbar/src/apple-ib-tb.c:722-807 | new state and output are the specified key event's |
| TouchBarDevice.AppleTb.InpEvent | touchbar/src/apple-ib-tb.c:809-830 | the Fn key is noted, repeats ignored, and an update asked for |
| TouchBarDevice.AppleTb.SetIdle | touchbar/src/apple-ib-tb.c:599-607 | the calculated dim timeout follows the idle timeout |
| TouchBarDevice.AppleTb.WriteSetting | touchbar/src/apple-ib-tb.c:617-696 | the unlocked half of a store: values out of range, above INT_MAX too, are refused |
| TouchBarDevice.AppleTb.UpdateTouchbar | touchbar/src/apple-ib-tb.c:587-597 | the locked half: the update, forced for timeouts, whatever happened in between |
| TouchBarDevice.AppleTb.IdleTimeoutStore | touchbar/src/apple-ib-tb.c:617-633 | invalid values change nothing; valid ones are written and then force a run |
| TouchBarDevice.AppleTb.DimTimeoutStore | touchbar/src/apple-ib-tb.c:635-671 | the same for the dim timeout, with -2 for the calculated one |
| TouchBarDevice.AppleTb.FnmodeStore | touchbar/src/apple-ib-tb.c:681-696 | the same for the Fn setting, without forcing |
| TouchBarDevice.AppleTb.WorkerSnapshot | touchbar/src/apple-ib-tb.c:365-372 | the snapshot is what is pending |
| TouchBarDevice.AppleTb.CommitValues | touchbar/src/apple-ib-tb.c:387-405 | a request equal to the transferred value is answered, a newer one asks for another run |
| TouchBarDevice.AppleTb.ScheduleNext | touchbar/src/apple-ib-tb.c:411-475 | another run at the timeout or while keys are down, else the dim or off write |
| TouchBarDevice.AppleTb.WorkerFinish | touchbar/src/apple-ib-tb.c:385-475 | commit and choice of the next run as one locked step |
| TouchBarDevice.AppleTb.WorkerSetsDim | touchbar/src/apple-ib-tb.c:462-475 | the display value is recorded if it was written, and the off run follows a dim |
| BtCoex.StepKeepsInv | wifi-bcm4350/src/btcoex.c:273-352 | every step keeps the session invariant |
| BtCoex.SessionInvariant | wifi-bcm4350/src/btcoex.c:273-481 | in every run an active session has exactly one of queued work and armed timer and a known interface; an idle machine has neither, so the invalid-state branch is never reached, and all eight registers are as before |
| BtCoex.RegistersRestored | wifi-bcm4350/src/btcoex.c:139-268 | between idle states that nobody else reprogrammed all eight registers are the same |
| BtCoex.SessionEnds | wifi-bcm4350/src/btcoex.c:287-352 | a session takes at most three handler runs, and one is always queued or has its timer armed |
| BtCoex.StartIff | wifi-bcm4350/src/btcoex.c:408-421 | a session starts exactly on an idle machine with a SCO connection, and what it then has set |
| BtCoex.OverridesInEveryRun | wifi-bcm4350/src/btcoex.c:139-326 | in every run the first registers hold the DHCP values while a session is active and not ended, and the other five hold theirs exactly in the forced state |
| BtCoex.SessionLaw | wifi-bcm4350/src/btcoex.c:287-352 | while a session lasts, each handler run takes it one phase further, and it is ended exactly if its own interface said so |
| BtCoex.UnendedSessionBoosts | wifi-bcm4350/src/btcoex.c:313-326 | in every run from an idle state, the second handler run of a session not ended overrides all eight registers and arms the timer |
| BtCoex.PlainSession | wifi-bcm4350/src/btcoex.c:297-326 | a session nobody ends does so when its timer has fired once |
| BtCoex.EndedSessionNeverForces | wifi-bcm4350/src/btcoex.c:313-318 | a session ended before that never gets to the forced state |
| BtCoex.EndIsPrompt | wifi-bcm4350/src/btcoex.c:423-442 | ending a session queues a handler run instead of the timer, and restores at that run, or for a session only just started at once the first registers |
| BtCoex.WindowTakesItsTime | wifi-bcm4350/src/btcoex.c:297-311 | the window takes its 2000 ticks off the time of the session, if there are as many |
| BtCoex.DetachRestores | wifi-bcm4350/src/btcoex.c:389-406 | detaching in any state gives back all eight registers |
| BtCoex.Attach | wifi-bcm4350/src/btcoex.c:360-383 | the fresh state meets the invariant, with no register overridden |
| BtCoex.BtCoexInfo.constructor | wifi-bcm4350/src/btcoex.c:360-383 | the structure attached is that state |
| BtCoex.BtCoexInfo.Boost | wifi-bcm4350/src/btcoex.c:139-188 | saves and overrides five registers once, restores them on the next call |
| BtCoex.BtCoexInfo.Save1 | wifi-bcm4350/src/btcoex.c:233-248 | keeps the first saved values |
| BtCoex.BtCoexInfo.Restore1 | wifi-bcm4350/src/btcoex.c:253-268 | writes back what was saved, once |
| BtCoex.BtCoexInfo.TimerFunc | wifi-bcm4350/src/btcoex.c:273-281 | an expired timer becomes queued work |
| BtCoex.BtCoexInfo.RunHandler | wifi-bcm4350/src/btcoex.c:287-352 | the handler's step, with the idle case shown impossible |
| BtCoex.BtCoexInfo.StartDhcp | wifi-bcm4350/src/btcoex.c:408-421 | a session starts with the first registers saved and overridden, and work queued |
| BtCoex.BtCoexInfo.EndDhcp | wifi-bcm4350/src/btcoex.c:423-442 | an armed timer is exchanged for queued work, otherwise registers are restored at once |
| BtCoex.BtCoexInfo.SetMode | wifi-bcm4350/src/btcoex.c:450-481 | a second session is refused as busy, a foreign end ignored, the invariant kept |
| BtCoex.BtCoexInfo.Detach | wifi-bcm4350/src/btcoex.c:389-406 | no timer and no work remain and all eight registers are as before the session |
| SgList.SplitPackets | wifi-bcm4350/src/bcmsdh.c:423-484 | for every packet list and positive limits the requests concatenate to exactly the packets' bytes, or to a prefix on error; each is within all limits, each but the last is full and closed as soon as it is, and each segment goes as far as its packet and the limits allow; each error is returned exactly when its cause is there: no packets, a refused request, or a request that needs more entries than the table has |
| SgUnique.SplitIsUnique | wifi-bcm4350/src/bcmsdh.c:423-484 | there is only one split of a packet list that this contract allows, request by request and segment by segment |
| SgList.SegLimitIs | wifi-bcm4350/src/bcmsdh.c:425-426 | at most as many segments a request as the host takes or packets are sent, but that 65536 packets count as none |
| SgList.SplitPacket | wifi-bcm4350/src/bcmsdh.c:448-479 | one packet extends the tiling by exactly its bytes, and its loop ends |
| SgList.PageList | wifi-bcm4350/src/bcmsdh.c:400-421 | full pages and a last one add up to the least multiple of the block size that holds the packets, none empty |
| SgList.FillPacket | wifi-bcm4350/src/bcmsdh.c:495-512 | one packet gets the next bytes of the pages, across page ends |
| SgList.Receive | wifi-bcm4350/src/bcmsdh.c:445-484 | the requests, carried out in order, put the stream's bytes where the pages are |
| SgList.CopyBack | wifi-bcm4350/src/bcmsdh.c:485-514 | packets, empty ones included, get the received stream in order and unchanged, unless an empty packet comes when the source list has run out |
| SgList.ReadPackets | wifi-bcm4350/src/bcmsdh.c:397-514 | a read on a host without scatter support, through page list, splitter, host and copy-back, delivers the stream's first bytes, as many as were received; exactly when packets are filled at all |
| SgList.EmptyPacketBehindBlock | wifi-bcm4350/src/bcmsdh.c:485-514 | a read of one block and an empty packet that ends in a list that has run out |
| Crop.AdjustIsIdempotent | camera/src/fthd_v4l2.c:439-482 | adjusting an adjusted format changes nothing, for every sensor and request, also where alignment passes the sensor's width |
| Crop.RequestIsMet | camera/src/fthd_v4l2.c:439-482 | a request is met as nearly as the sensor allows: the height is the nearest within the limits, the width the nearest aligned up to 8, YVYU stays and anything else becomes YUYV, sizes are those of two bytes per pixel |
| Crop.AcceptedIff | camera/src/fthd_isp.c:716-740 | the validator takes exactly the windows that are not empty, have all pixels on the sensor and not both left edge and width odd |
| Crop.Pix.AdjustFormat | camera/src/fthd_v4l2.c:439-482 | the in-place adjustment is the specified one |
| Crop.NoOverflow | camera/src/fthd_isp.c:1196-1204 | no 32-bit product of the crop wraps |
| Crop.NoLargerWindow | camera/src/fthd_isp.c:1184-1204 | every scaled copy of the output inside the sensor is, in whole pixels, no larger than the window |
| Crop.WindowIsAttained | camera/src/fthd_isp.c:1184-1204 | and one such copy is the window |
| Crop.RawSizeFits | camera/src/fthd_isp.c:1193-1204 | before rounding the window is inside the sensor, and at least 2 by 1 if and only if the sensor is two pixels wide and its width times the output's height covers the output's width |
| Crop.CropAlwaysValid | camera/src/fthd_isp.c:1184-1218 | on every sensor of at least 320x240 the crop of every requested format passes the validator at 716-740 |
| Crop.CropAcceptedIff | camera/src/fthd_isp.c:1184-1218 | on every sensor the driver records, for every requested format, the crop is the largest window but for at most one column, even, centred and inside, and is accepted if and only if the sensor is two pixels wide and its width times the output's height covers the output's width |
| Crop.SensorFitsAllFormatsIff | camera/src/fthd_isp.c:681-740 | a sensor is accepted for all formats if and only if it is two pixels wide and its width times its height, at most 240, covers its aligned width |
| Crop.OnePixelWide | camera/src/fthd_isp.c:1210-1217 | a sensor one pixel wide is refused for every format |
| Crop.UndetectedSensor | camera/src/fthd_isp.c:1188-1191 | while no sensor is recorded the crop is the whole output and accepted |
| Crop.DefaultCrop | camera/src/fthd_v4l2.c:799-807 | the default format, adjusted, gives a valid crop of the sensor's full width, and of its full height if and only if the width is a multiple of 8 |

## Left out

- Locks and memory ordering: a locked section is one step. Scan-request and coexistence operations are
  atomic steps; what their unlocked interleavings inside one operation could do is not modelled.
- Flow rings: address-mode changes, peer deletion and TDLS peers are one arbitrary step that changes
  modes and peers only (wifi-bcm4350/src/flowring.c:407-507); rings they close or delete are separate
  close and remove events. An interface without a net device is not modelled.
- FlowTables.FlowTable.EnqueueSkb: runs as one step, in which the repeated length check after blocking
  cannot find a drained queue; module FlowRace has it interleaved, on one ring.
- FlowTables.FlowTable.TxQueueData: stops where the source would use a ring that does not exist.
- NvramImage.NvramStrip: stops with `TooSmall` where the source would leave its buffer; allocation
  failures are not modelled.
- NVRAM texts end in a NUL within their stated length, as the source's comment demands; the line and
  column counters for debug messages are dropped.
- VendorIeTables.ParseVndrIes: stops where the source would read past the buffer, in the walk or in the
  copy of what it found.
- Vendor elements: the firmware is taken to add to and delete from a multiset per frame type;
  brcmf_vif_clear_mgmt_ies is not modelled (it zeroes buffers it did not delete from the firmware).
- ScanBuffers.ScanBuffer.PartialResult: stops where the source's comparison would read past a record.
- ScanBuffers.ScanBuffer.InformBss: whether a single report succeeds is a parameter.
- Scan requests: parameters, firmware commands, P2P channel searches and scheduled-scan setup appear as
  flags of an event only; an internal scan has at least one bucket, as its caller ensures.
- Common rings: the update and doorbell callbacks exist; reserving and filling slots is one step. What a
  ring does after its write pointer has left it is not modelled: a run ends there.
- Touch bar: suspend, probe failures, removal, automatic power management and USB retries; the idle
  time is a parameter of the commit; the two timeouts are written in one step.
- Bluetooth coexistence: SCO sampling is a parameter, time is in ticks, register accesses succeed.
- Scatter-gather: the MMC command word, block counts, addresses and the transfer itself; 32-bit overflow
  of the sum of packet lengths; alignment is rounding up to a multiple.
- SgList.CopyBack: stops where the source would look at a page behind the last one.
- Camera: bring-up, commands, ring buffers and buffer states.
- Device bring-up, PCI, ACPI, packaging, P2P, PNO, firmware signalling and the rest of cfg80211 are not
  modelled: they are hardware access without visible meaning, or have no state of their own.
