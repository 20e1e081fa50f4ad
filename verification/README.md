# Firmware hand-off, boot loader, UART bridge, peer list and battery curve: a verified model

This project models the parts of the repository that hold protocols, state machines or delicate arithmetic, and proves
what they keep, what they achieve, and, where the code falls short of its purpose, exactly when it does.

| component | files |
|---|---|
| Two-core firmware hand-off through a 4096-byte window of shared RAM | `PcdProtocol`, `PcdSafety`, `PcdVerdict`, `PcdOutcome`, `PcdProgress`, `PcdTermination`, `Fairness`, `PcdCommand` |
| Boot loader: overwrite-only upgrade under power failure, its fast form, the copy with decryption | `Overwrite`, `FastOverwrite`, `FastBoot`, `EncryptedCopy` |
| Boot loader: swap types of several images, direct-XIP boot with revert | `Versions`, `SwapTypes`, `DirectXip` |
| UART bridge, receiving and sending: the adapter with its one client, and the adapter under any client | `Buffers`, `UartRx`, `UartRxCode`, `RxAdapter`, `RxRefinement`, `UartTx`, `UartTxCode` |
| Ranged peers: trimmed-mean filter, ageing list | `PeerFilter`, `PeerList`, `PeerSearch` |
| Battery level on a discharge curve | `Battery` |

Protocols are state machines whose runs are arbitrary interleavings: single shared-field accesses for the two cores,
whole handlers for the UART and the peer list, single flash operations (and anything inside one) for power failures.
Where the source updates fields or arrays in place, a class or an array method does the same and is proved equal to the
function that the theorems are about (`PcdCmd`, `FlashDevice`, `LoaderState`, `RxBridge`, `TxBridge`, `Filter`,
`PeerTracker`, `ContextBootGo`, `CopyRegion`, `SelectionSort`, `BatteryLevel`).

## What the code does not do

These are properties that the comments or names of the code suggest and that are false of it. Each is proved with its
exact condition.

- **Two-core copy.** The producer advances the counter that the consumer's loop tests, so the last chunk of an external
  image may never be written; an image of at most one page never is (`FullCopyPossibleIff`). A return value of 0 means
  that the image is installed if and only if the image is internal, or empty, or the firmware check notices that just the
  last chunk is missing (`UpdateVerdict`).
- **Fast overwrite.** The copy length is rounded up past the image even when the image already ends on a write boundary,
  so with write-aligned sectors it leaves the erased ones if and only if the image ends exactly on their boundary
  (`EraseForImage`).
- **Copy with decryption.** A copy from the start of a slot is the whole-image transform if and only if the first chunk
  holds the whole header and no TLV byte, or the copy or the header is empty (`CopyIsTransformIff`).
- **Direct-XIP return code.** Without revert the return code keeps the last version comparison, so a boot that chose an
  image can report failure (`ReturnCodeVerdict`, `ReturnCodeOfTwoSlots`).
- **Direct-XIP revert.** An unconfirmed image is started again at every boot if its copy-done flag is bad and a write, which
  can only clear bits, does not turn it into a set one (`CopyDoneWriteDecides`).
- **Direction of swaps.** The review clears only REVERTs that precede a TEST, PERM or FAIL. A REVERT found after one is
  carried out along with it, unless a still later image is reviewed or a dependency is not met (`DirectionVerdict`,
  `DecidedDirectionVerdict`).
- **Dropped bytes.** The adapter drops bytes although it had a next buffer if and only if a callback after the switch
  enables or disables reception (`DropsIff`).
- **UART transmission abort.** An abort is resumed if and only if some byte was not pushed yet; a later one stalls the
  queue, lets the next message overtake it, and leaks a buffer (`AbortVerdict`, `LateAbortReorders`).
- **UART buffers of one byte.** The receive callback makes no progress and leaks every block it can get
  (`OneByteBuffersLeak`).
- **Closest peer.** `mcpd_min_peer_result` keeps the greater distance, so the peer found is the farthest; it is the
  closest as well if and only if all are equally far (`ClosestVerdict`).
- **Unmeasured peers.** An entry holds an uninitialised result until its first measurement, and the search can return it,
  or miss the right one because of it. Behind measured peers it changes the result if and only if it happens to be as far
  as the farthest (`AppendedVerdict`); the condition for every list is exact (`SearchVerdict`).
- **Expired peers.** The removal passes no predecessor, which `sys_slist_remove` takes to mean that the node is the head:
  peers in front of an expired one fall out of the list unfreed. A tick removes just the expired peers if and only if none
  that is to stay is in front of one that expires (`TickVerdict`), and a peer lives its 20 ticks if and only if no tick
  removes an entry behind it (`ExactLifetime`).

## Model

| member | source | states |
|---|---|---|
| `PcdProtocol.AppKeepsInv` | nrf53_ble/otherExamples/resources/9pcd.c:141-244 | every single shared-field access of the application core, in any interleaving, keeps the invariant on both program counters, flags, counters, window and flash |
| `PcdProtocol.NetKeepsInv` | nrf53_ble/otherExamples/resources/9pcd.c:76-129 | the same for every access of the network core, driver errors included |
| `PcdSafety.HandOffIsSafe` | nrf53_ble/otherExamples/resources/9pcd.c:107-163 | in every reachable state the flash stream is `image[0..w]` with `w <= bytes_moved <= len`, the two flags are never both set, and the producer's non-empty memcpy never overlaps the consumer's read or its clearing of the window |
| `PcdSafety.CopyLosesAtMostTheLastChunk` | nrf53_ble/otherExamples/resources/9pcd.c:92-128 | when the copy returns 0, all of an internal image is written, and all of an external one or all but exactly its last chunk |
| `PcdSafety.SuccessMeansAccepted` | nrf53_ble/otherExamples/resources/9pcd.c:194-244 | an update that returns 0 ended on a flash the firmware check accepts, for internal and external images; if the check accepts only the whole image, the flash holds exactly it |
| `PcdSafety.IncompleteCopyIsNeverDone` | nrf53_ble/otherExamples/resources/9main.c:34-86 | under the same condition, a flash without the whole image ends in FAIL: never DONE, never a return value of 0 |
| `PcdSafety.SinglePageNeverWritten` | nrf53_ble/otherExamples/resources/9pcd.c:107-163 | for external images of at most one page no byte is ever written, in any run |
| `PcdVerdict.UpdateVerdict` | nrf53_ble/otherExamples/resources/9pcd.c:194-244 | over all runs, "returns 0 implies the flash holds the image" is true if and only if the image is internal, or empty, or the firmware check notices a missing last chunk |
| `PcdVerdict.LosingRun` | nrf53_ble/otherExamples/resources/9pcd.c:107-123 | the witness, for every external image: any accepted flash that holds all but the last chunk is the outcome of an update that returns 0, from any flash if there is more than one chunk |
| `PcdVerdict.FullCopyPossibleIff` | nrf53_ble/otherExamples/resources/9pcd.c:107-161 | some run writes the whole external image if and only if it is longer than a page: the race between counting the last chunk and testing the loop guard decides |
| `PcdVerdict.WinningRun` | nrf53_ble/otherExamples/resources/9pcd.c:107-161 | the run that writes all of a longer image, from whatever was in flash |
| `PcdOutcome.RefusedSourceIsNeverCopied` | nrf53_ble/otherExamples/resources/9main.c:40-48 | an internal image that fails the check where it lies is never copied, not one byte, in any run, and the update never succeeds |
| `PcdOutcome.AcceptedSourceSucceeds` | nrf53_ble/otherExamples/resources/9main.c:34-74 | one that passes has a run that copies all of it into any flash and succeeds |
| `PcdOutcome.ErrorFreeVerdict` | nrf53_ble/otherExamples/resources/9main.c:34-86 | in every run without driver errors that halts the update is DONE if and only if the check accepts the flash, and an internal source as well, and FAIL otherwise |
| `PcdOutcome.ClearingIsComplete` | nrf53_ble/otherExamples/resources/9pcd.c:111-123 | whether the copy of an external image ends well or with an error, all 4096 bytes of the window are zero afterwards |
| `PcdProgress.NetCanMove` | nrf53_ble/otherExamples/resources/9pcd.c:107-122 | in every reachable state of the loop the network core has a step that is no error |
| `PcdProgress.StepLowersRank` | nrf53_ble/otherExamples/resources/9pcd.c:107-161 | a step of the core whose turn it is lowers the rank (bytes left, phase); no step of either core raises it |
| `PcdProgress.CopyLoopIsBounded` | nrf53_ble/otherExamples/resources/9pcd.c:107-122 | any error-free run inside the loop makes at most as many productive steps as the rank it starts from |
| `PcdProgress.IdleKeepsHelpful` | nrf53_ble/otherExamples/resources/9pcd.c:107-161 | a step that gains nothing leaves the same core waited for |
| `PcdProgress.FairRunLeavesLoop` | nrf53_ble/otherExamples/resources/9pcd.c:107-161 | no deadlock and no livelock: any error-free run in which each core moves at least once in every k steps leaves the loop within k * 30000 * (len + 1) steps |
| `PcdTermination.StepGains` | nrf53_ble/otherExamples/resources/9pcd.c:194-244 | over the whole update, errors included: a step of the core that is waited for leaves less to do, no step leaves more, and a step that gains nothing leaves the same core waited for |
| `PcdTermination.FairRunReturns` | nrf53_ble/otherExamples/resources/9pcd.c:194-244 | the update ends: from any reachable state with the network core on, every run in which each core moves at least once in every k steps, driver errors included, has returned within k * 30000 * (len + 2) steps |
| `PcdProgress.ChunkArithmetic` | nrf53_ble/otherExamples/resources/9pcd.c:145-158 | `bytes_left` never underflows, `bytes_moved` never overflows, and exactly ceil(len/4096) non-empty chunks are published by the end |
| `PcdCommand.PcdCmd.Update` | nrf53_ble/otherExamples/resources/9pcd.c:141-163 | puts exactly the next page of the image in the window, counts it, raises one flag and lowers the other; leaves the rest of the window, and does nothing for internal images |
| `PcdCommand.PcdCmd.Write` | nrf53_ble/otherExamples/resources/9pcd.c:175-191 | refuses NULL and empty images without touching anything, otherwise describes the image and publishes its first page |
| `PcdCommand.StatusTellsOutcome` | nrf53_ble/otherExamples/resources/9pcd.c:60-69 | in every run, once the network core is on, the status reads as copying exactly until that core has halted, as done only over an accepted flash, and as failed over any other |
| `PcdCommand.UpdateStepsMatchUpdate` | nrf53_ble/otherExamples/resources/9pcd.c:141-163 | the single steps of the two-core model, taken without interference, have the effect of the sequential routine |
| `Overwrite.RewriteCopies` | nrf53_ble/otherExamples/resources/9loader.c:1075-1126 | erasing all sectors and copying through the 1024-byte buffer leaves the primary slot equal to the secondary, on flash whose writes only clear bits |
| `Overwrite.PowerFailSafe` | nrf53_ble/otherExamples/resources/9loader.c:1034-1174 | after any number of resets, at or inside any erase or write of any boot, some slot still holds the whole image, and the next boot can finish |
| `Overwrite.FirstCleanBootUpgrades` | nrf53_ble/otherExamples/resources/9loader.c:1671-1820 | the first boot that is not interrupted ends with the image in the primary slot; the whole slot is copied if no reset came before |
| `Overwrite.CleanBootUpgrades` | nrf53_ble/otherExamples/resources/9loader.c:592-671 | from any safe flash one boot completes the upgrade, whether the secondary slot is pending, retired or damaged by a torn erase |
| `Overwrite.NothingRequestedNothingDone` | nrf53_ble/otherExamples/resources/9loader.c:805-830 | byte for byte: without a swap request, or without an image, a boot touches neither slot |
| `Overwrite.InvalidImageIsErased` | nrf53_ble/otherExamples/resources/9loader.c:651-664 | a requested image that fails its check is erased, with the whole secondary slot, and the primary slot is kept |
| `Overwrite.ValidImageIsInstalled` | nrf53_ble/otherExamples/resources/9loader.c:1034-1174 | a requested image that passes is installed, and the secondary slot loses its first and last sector and nothing else |
| `Overwrite.UpgradeHappensOnce` | nrf53_ble/otherExamples/resources/9loader.c:1149-1166 | the upgrade retires the secondary slot: the boot that follows changes nothing |
| `Overwrite.FlashDevice.CopyRegion` | nrf53_ble/otherExamples/resources/9loader.c:940-1017 | the copy loop performs, one by one and in order, the planned buffer-sized writes |
| `Overwrite.FlashDevice.CopyImage` | nrf53_ble/otherExamples/resources/9loader.c:1034-1174 | the routine performs, one by one and in order, the flash operations of the plan the power-failure theorems are about, and leaves the primary slot equal to the old secondary |
| `FastOverwrite.EraseForImage` | nrf53_ble/otherExamples/resources/9loader.c:1075-1090 | the erase loop, on the flash: for images that fit the slot the copy length is the least write-size multiple strictly above the image size and the erased sectors are the minimal prefix that covers the image; with write-aligned sectors the copy stays inside them if and only if the image does not end on their boundary; a larger size erases and copies the whole slot |
| `FastOverwrite.TrailerSectors` | nrf53_ble/otherExamples/resources/9loader.c:1092-1103 | the trailer loop stops inside the slot if and only if the trailer fits, and then covers it with the minimal suffix of sectors |
| `FastOverwrite.FastCopiesImage` | nrf53_ble/otherExamples/resources/9loader.c:1075-1126 | byte by byte, what the primary slot holds before the magic is written: the image wherever it was erased, old AND new bits elsewhere |
| `FastOverwrite.FastInstallsImage` | nrf53_ble/otherExamples/resources/9loader.c:1075-1126 | an image inside the erased sectors is whole in the primary slot, wherever the trailer sectors lie |
| `FastBoot.FastPowerFailSafe` | nrf53_ble/otherExamples/resources/9loader.c:1034-1174 | the fast form, as the code computes it from the secondary slot, magic included: after any number of resets at or inside any operation some slot still holds the whole image |
| `FastBoot.FirstFastBootInstalls` | nrf53_ble/otherExamples/resources/9loader.c:1671-1820 | and the first boot that is not interrupted ends with the image in the primary slot |
| `FastBoot.FastBootOtherwise` | nrf53_ble/otherExamples/resources/9loader.c:651-664 | without a request, without an image, or with one that fails its check, the fast form does to every byte what the plain one does |
| `FastBoot.FastBootInstalls` | nrf53_ble/otherExamples/resources/9loader.c:1034-1174 | a requested image that passes is installed, and the secondary slot loses its first and last sector and nothing else |
| `FastBoot.PlanInstalls` | nrf53_ble/otherExamples/resources/9loader.c:1075-1133 | erase, erase under the trailer, copy and magic, one after the other, leave the image whole in the primary slot |
| `FastBoot.CopyImageFast` | nrf53_ble/otherExamples/resources/9loader.c:1034-1174 | the routine performs, one by one and in order, the flash operations of that plan |
| `EncryptedCopy.CopyRegion` | nrf53_ble/otherExamples/resources/9loader.c:922-1018 | the chunk loop succeeds if and only if no driver call fails and no cipher call overruns the buffer, and then has made the chunked copy; otherwise a prefix is copied right and nothing behind the failing chunk is touched |
| `EncryptedCopy.CopyIsTransform` | nrf53_ble/otherExamples/resources/9loader.c:946-1015 | for suitable images the chunked copy equals the whole-image transform: exactly `[hdr_size, tlv_off)` is XORed with the key stream at its own position, header and TLVs pass unchanged |
| `EncryptedCopy.CopyIsTransformIff` | nrf53_ble/otherExamples/resources/9loader.c:980-1003 | suitability of the first chunk is not only sufficient but necessary |
| `EncryptedCopy.ThereAndBack` | nrf53_ble/otherExamples/resources/9loader.c:946-1015 | copying to the other slot and back restores every byte |
| `Versions.CompareIsTotalPreorder` | nrf53_ble/otherExamples/resources/9loader.c:555-581 | the version comparison is total, transitive and antisymmetric in sign; the build number does not count |
| `Versions.CompareOrdersKeys` | nrf53_ble/otherExamples/resources/9loader.c:555-581 | the field-by-field comparison is the order of the 32-bit number that the three fields make up |
| `SwapTypes.LoaderState.VerifySlotDependency` | nrf53_ble/otherExamples/resources/9loader.c:1317-1358 | returns 0 if and only if the version that will boot meets the dependency; otherwise lowers only the current image's swap type, by the exact table |
| `SwapTypes.LoaderState.VerifySlotDependencies` | nrf53_ble/otherExamples/resources/9loader.c:1368-1428 | returns 0 if and only if every dependency entry is well formed, readable and met, and then changes nothing |
| `SwapTypes.LoaderState.VerifyDependencies` | nrf53_ble/otherExamples/resources/9loader.c:1434-1465 | returns 0 if and only if all images are consistent, with no swap type changed; otherwise every swap type is NONE |
| `SwapTypes.BootedDependenciesMet` | nrf53_ble/otherExamples/resources/9loader.c:1326-1333 | after success every dependency of the slot each image boots from is met by the version its subject will have after the boot |
| `SwapTypes.BootedVersionsSuffice` | nrf53_ble/otherExamples/resources/9loader.c:1326-1333 | the same in what the two slots of every image hold, for each of TEST, PERM and REVERT |
| `SwapTypes.MetIff` | nrf53_ble/otherExamples/resources/9loader.c:1326-1357 | exactly when a dependency is met, in what the slots hold: the version that will boot is not older; an equal one is enough |
| `SwapTypes.CheckedSlotIsBooted` | nrf53_ble/otherExamples/resources/9loader.c:1442-1447 | the slot that is checked is the slot that boots, except for swap type PANIC |
| `SwapTypes.LoaderState.Review` | nrf53_ble/otherExamples/resources/9loader.c:1610-1657 | clears exactly the earlier REVERT entries, and only when the current image was aborted or is neither NONE nor REVERT |
| `SwapTypes.LoaderState.PrepareImages` | nrf53_ble/otherExamples/resources/9loader.c:1742-1784 | over the whole first image loop each swap type is its finding, unless a later image calls an earlier REVERT off; no REVERT precedes TEST, PERM or FAIL |
| `SwapTypes.RevertRemainsIff` | nrf53_ble/otherExamples/resources/9loader.c:1639-1656 | exactly which reverts remain after the first loop: those that no later aborted swap, TEST, PERM or FAIL calls off |
| `SwapTypes.LoaderState.DecideSwaps` | nrf53_ble/otherExamples/resources/9loader.c:1855-1912 | both phases: the swap types of the first loop, or NONE for all if an upgrade is asked for and a dependency is not met; no REVERT precedes TEST, PERM or FAIL, and any upgrade that is left is consistent with all dependencies |
| `SwapTypes.DirectionVerdict` | nrf53_ble/otherExamples/resources/9loader.c:1627-1656 | the first loop leaves all images moving in one direction if and only if every REVERT found after a TEST, PERM or FAIL is called off by a still later image |
| `SwapTypes.DecidedDirectionVerdict` | nrf53_ble/otherExamples/resources/9loader.c:1855-1912 | and both phases do if and only if that holds or a dependency is not met |
| `SwapTypes.TestBeforeRevertIsKept` | nrf53_ble/otherExamples/resources/9loader.c:1644-1656 | the input that shows it: TEST for the first image and REVERT for the second are both carried out |
| `DirectXip.SlotUsage` | nrf53_ble/otherExamples/resources/9loader.c:2191-2215 | marks and counts exactly the slots with a sane header |
| `DirectXip.NewestIsFirstGreatest` | nrf53_ble/otherExamples/resources/9loader.c:2477-2497 | the scan picks the first slot of the greatest version in use |
| `DirectXip.BootChoosesNewest` | nrf53_ble/otherExamples/resources/9loader.c:2472-2554 | for any number of slots: the response holds a greatest-version image among those that pass the checks, there is none if and only if none passes, and only images that do not pass are erased |
| `DirectXip.BootedImageIsStartable` | nrf53_ble/otherExamples/resources/9loader.c:651-664 | in what a slot holds: an image is started only with a sane header, an accepted hash, and, with revert, a good trailer that does not say it was started and not confirmed; none is started if and only if no slot is like that |
| `DirectXip.BootOutcomes` | nrf53_ble/otherExamples/resources/9loader.c:2472-2554 | what one boot does to every slot: those tried before the chosen one are erased if they are faulty or fail validation and may be erased, the chosen one is marked with revert, all others are untouched |
| `DirectXip.SelectedSlotIsMarked` | nrf53_ble/otherExamples/resources/9loader.c:2229-2283 | the chosen slot is only marked as started, and with revert the return code is 0 |
| `DirectXip.ReturnCodeVerdict` | nrf53_ble/otherExamples/resources/9loader.c:2474-2549 | for any number of slots, without revert: a boot that chose an image reports success exactly if no other header is sane, or the last slot not tried before it ties with it, or it was the last one left and ties with a slot tried before |
| `DirectXip.ReturnCodeOfTwoSlots` | nrf53_ble/otherExamples/resources/9loader.c:2480-2497 | for two slots: a boot that chose an image reports success if and only if fewer than two headers are sane or the versions are equal |
| `DirectXip.ContextBootGo` | nrf53_ble/otherExamples/resources/9loader.c:2472-2619 | the selection loop, in which the slots still in use number `img_cnt - i`, has exactly the outcome the theorems are about |
| `DirectXip.UnconfirmedStartsOnce` | nrf53_ble/otherExamples/resources/9loader.c:2229-2283 | over any sequence of boots, confirmations and installations whose copy-done flags read back as set, an image that was started before starts again only if it confirmed itself |
| `DirectXip.StartIsRecorded` | nrf53_ble/otherExamples/resources/9loader.c:2229-2283 | over any run an image that was handed control and neither replaced nor erased since counts as started |
| `DirectXip.SecondStartIsConfirmed` | nrf53_ble/otherExamples/resources/9loader.c:2229-2283 | on the trace of events: between two starts of the same slot with no new image installed there the image has confirmed itself |
| `DirectXip.ConfirmedSurvives` | nrf53_ble/otherExamples/resources/9loader.c:2472-2554 | while some slot holds a confirmed valid image every boot selects a valid image and keeps the confirmed one |
| `DirectXip.ConfirmedIsNeverErased` | nrf53_ble/otherExamples/resources/9loader.c:2229-2283 | a confirmed valid image outlives any sequence of boots and confirmations |
| `DirectXip.CopyDoneWriteDecides` | nrf53_ble/otherExamples/resources/9loader.c:2229-2283 | the assumption is exact: an unconfirmed image is started a second time at once if and only if the copy-done write failed or found a bad flag whose bits it could not turn into a set one |
| `UartRx.RxEndToEnd` | app/mcuboot_prv_key/peripheral_uart/src/uart_async_adapter.c:440-498 | in every run, for every behaviour of driver and allocator, the bytes read are, in order and once each, what the radio sent, the queue, and the partial buffer; bytes are reported lost only if some are missing; reception is on or a retry is scheduled; if no allocation failed nothing that arrived is missing |
| `UartRx.BuffersHaveOneOwner` | app/mcuboot_prv_key/peripheral_uart/src/main.c:129-185 | in every run no block is freed twice or leaked, each is queued, current or next and only one of these, and `len` of the current one is the notified offset |
| `UartRx.HandleKeeps` | app/mcuboot_prv_key/peripheral_uart/src/uart_async_adapter.c:67-140 | each handler with its re-entrant callbacks keeps ownership, lengths and stream |
| `UartRx.NotifyKeeps` | app/mcuboot_prv_key/peripheral_uart/src/main.c:129-145 | notification, including the disable and re-enable that the end of a line triggers, loses and duplicates nothing |
| `UartRx.RefillKeeps` | app/mcuboot_prv_key/peripheral_uart/src/uart_async_adapter.c:449-476 | after the head of a round there is room to read, unless the switch found no next buffer, which takes a failed allocation |
| `UartRx.ReadLoopDrains` | app/mcuboot_prv_key/peripheral_uart/src/uart_async_adapter.c:449-493 | the loop goes on until nothing is waiting, whatever the size of the reads |
| `UartRx.CompleteBuffersGoOut` | app/mcuboot_prv_key/peripheral_uart/src/main.c:135-143 | a notification hands the buffer to the radio if and only if it is full or the last byte read is 10 or 13, and then nothing read is held back; otherwise the queue is unchanged |
| `UartRx.AtOnceLeavesNothing` | app/mcuboot_prv_key/peripheral_uart/src/uart_async_adapter.c:486-496 | with a receive timeout of zero the interrupt handler leaves no byte unnotified |
| `UartRx.NotifyLeavesNothing` | app/mcuboot_prv_key/peripheral_uart/src/uart_async_adapter.c:67-96 | neither does the receive timeout |
| `UartRxCode.RxBridge.OnRxReady` | app/mcuboot_prv_key/peripheral_uart/src/uart_async_adapter.c:440-498 | the nested read loop on mutable fields has the effect of the handler the theorems are about |
| `UartRxCode.RxBridge.DisableRx` | app/mcuboot_prv_key/peripheral_uart/src/uart_async_adapter.c:255-271 | so has `rx_disable` with its release loop and the client's re-enable |
| `UartRxCode.RxBridge.RxReadyEvent` | app/mcuboot_prv_key/peripheral_uart/src/main.c:129-145 | so has the client's `UART_RX_RDY`, never reading outside the block |
| `UartRxCode.RxBridge.WriteToRadio` | app/mcuboot_prv_key/peripheral_uart/src/main.c:622-638 | one turn of the radio thread sends the first queued buffer's bytes and frees it |
| `RxAdapter.PositionsAreSound` | app/mcuboot_prv_key/peripheral_uart/src/uart_async_adapter.c:67-140 | for any client, whatever it calls from within callbacks: `buf <= last_notify <= curr`, read bytes plus room equal the capacity, and the notified segments of a buffer tile a prefix of it, in order and disjoint |
| `RxAdapter.ReleaseAllKeeps` | app/mcuboot_prv_key/peripheral_uart/src/uart_async_adapter.c:255-271 | the release loop ends without a buffer and keeps the invariant under arbitrary callbacks |
| `RxAdapter.DropsIff` | app/mcuboot_prv_key/peripheral_uart/src/uart_async_adapter.c:449-476 | for every client, whatever its callbacks do: a pass drops bytes if and only if the buffer is used up and the switch finds no next one, or an empty one, or a callback after the switch enables or disables reception |
| `RxAdapter.DropIsReported` | app/mcuboot_prv_key/peripheral_uart/src/uart_async_adapter.c:449-493 | an interrupt drops if and only if one of its passes does |
| `RxAdapter.NothingDropped` | app/mcuboot_prv_key/peripheral_uart/src/uart_async_adapter.c:210-271 | if every request is answered, no event of any run drops a byte, whatever the client enables and disables, in callbacks or later: it only has to enable with non-empty buffers, leave a next buffer for the switch that follows a ready callback, and leave reception alone between a switch and the read that follows |
| `RxAdapter.EnabledReceives` | app/mcuboot_prv_key/peripheral_uart/src/uart_async_adapter.c:210-233 | enabling does enable: the next interrupt reads into the buffer that came with it, from its start |
| `RxAdapter.LineEndRestocks` | app/mcuboot_prv_key/peripheral_uart/src/main.c:142-161 | the disable at the end of a line is such a call, whether the client enables again at once or later from its work queue |
| `RxRefinement.RunIs` | app/mcuboot_prv_key/peripheral_uart/src/uart_async_adapter.c:440-498 | every run of the adapter with the one client is a run of the adapter under any client, and one in which every request is answered as long as no allocation fails |
| `RxRefinement.RoundIs` | app/mcuboot_prv_key/peripheral_uart/src/uart_async_adapter.c:449-493 | round by round: the same bytes are taken, and the one drops exactly if the other does |
| `RxAdapter.DisablingDrops` | app/mcuboot_prv_key/peripheral_uart/src/uart_async_adapter.c:449-476 | a disable in the release callback drops bytes although a next buffer was found, whatever else the callbacks do |
| `UartTx.TxEndToEnd` | app/mcuboot_prv_key/peripheral_uart/src/uart_async_adapter.c:142-207 | in every interleaving of chunks, interrupts and aborts none of which is late, accepted bytes are the UART output, the rest of the buffer in flight and the queue, in order; a queue implies a transfer under way |
| `UartTx.BuffersHaveOneOwner` | app/mcuboot_prv_key/peripheral_uart/src/main.c:99-127 | in such a run every block is in flight or queued or freed, exactly one of these |
| `UartTx.AbortResumes` | app/mcuboot_prv_key/peripheral_uart/src/main.c:187-200 | an abort in time resumes at the first byte not pushed, through any number of earlier aborts |
| `UartTx.AbortVerdict` | app/mcuboot_prv_key/peripheral_uart/src/main.c:187-200 | an abort during a transfer keeps the invariant, and the transfer, if and only if some byte was not pushed yet |
| `UartTx.LateAbortReorders` | app/mcuboot_prv_key/peripheral_uart/src/main.c:99-127 | what follows a late abort: the next message overtakes the queue and its block stays allocated with no owner |
| `UartTx.LateAbortReached` | app/mcuboot_prv_key/peripheral_uart/src/main.c:187-200 | the short run from the start that gets there: of three messages the second is overtaken by the third |
| `UartTx.CompleteIs` | app/mcuboot_prv_key/peripheral_uart/src/uart_async_adapter.c:404-438 | completion frees exactly the finished block, whatever aborts it went through, and starts the first queued one |
| `UartTx.DrainSendsAll` | app/mcuboot_prv_key/peripheral_uart/src/uart_async_adapter.c:380-438 | nothing is stuck: on every schedule in which the UART makes room and reports completion at least once each in every k events, with fills of any size and aborts that are not late in between, after k events for each unit of work all that was accepted is out, the queue is empty and every block is freed |
| `UartTx.ServedWindowWorks` | app/mcuboot_prv_key/peripheral_uart/src/uart_async_adapter.c:380-438 | a stretch with both a fill and a completion does some of the work while a transfer is under way |
| `UartTx.WorkIsBound` | app/mcuboot_prv_key/peripheral_uart/src/uart_async_adapter.c:380-438 | no schedule has more productive events than there was work, and one that has as many has delivered everything |
| `UartTx.EventWorks` | app/mcuboot_prv_key/peripheral_uart/src/uart_async_adapter.c:380-438 | no event but a new chunk adds work, and every productive fill or completion does some |
| `UartTx.TransferIsProductive` | app/mcuboot_prv_key/peripheral_uart/src/uart_async_adapter.c:380-438 | while a transfer is under way either a fill or the completion is productive |
| `UartTx.ReceiveAccepts` | app/mcuboot_prv_key/peripheral_uart/src/main.c:474-507 | a message is cut into buffers without gap or overlap, with one line feed after a final carriage return, up to the first failed allocation |
| `UartTx.WholeMessageAccepted` | app/mcuboot_prv_key/peripheral_uart/src/main.c:474-507 | a message received to its end goes out as it is, with a byte 10 behind it if and only if its last byte is 13 |
| `UartTx.OneByteBuffersLeak` | app/mcuboot_prv_key/peripheral_uart/src/main.c:482-493 | with one-byte buffers a message takes every block that can be had, however many, and none of them is sent, queued or freed |
| `UartTx.OneByteBuffersStall` | app/mcuboot_prv_key/peripheral_uart/src/main.c:474-507 | the position never advances and nothing is accepted, whether the transmitter is busy or not |
| `UartTxCode.TxBridge.OnBtReceive` | app/mcuboot_prv_key/peripheral_uart/src/main.c:463-508 | the chunk loop on mutable fields has the effect of the function above |
| `UartTxCode.TxBridge.TxDone` | app/mcuboot_prv_key/peripheral_uart/src/main.c:99-127 | so has the client's `UART_TX_DONE` |
| `UartTxCode.TxBridge.TxAborted` | app/mcuboot_prv_key/peripheral_uart/src/main.c:187-200 | so has the client's `UART_TX_ABORTED` |
| `UartTxCode.TxBridge.OnTxReady` | app/mcuboot_prv_key/peripheral_uart/src/uart_async_adapter.c:380-402 | so has the FIFO fill |
| `PeerFilter.SelectionSort` | app/ble/nrf_dm_nrf52840_dk_v191/src/peer.c:105-130 | the array ends sorted and a permutation of what it was, equal to the one sorted sequence |
| `PeerFilter.SortedIsUnique` | app/ble/nrf_dm_nrf52840_dk_v191/src/peer.c:113-130 | there is only one sorted permutation, so the output does not depend on the order of arrival |
| `PeerFilter.TrimmedMeanIsRobust` | app/ble/nrf_dm_nrf52840_dk_v191/src/peer.c:132-142 | for any N and E with 2E < N: at most E values outside an interval cannot move the trimmed mean out of it |
| `PeerFilter.TrimmedMeanIsKeptSum` | app/ble/nrf_dm_nrf52840_dk_v191/src/peer.c:132-142 | the output is the sum of the window less its E smallest and E largest values, over N - 2E |
| `PeerFilter.OneOutputPerWindow` | app/ble/nrf_dm_nrf52840_dk_v191/src/peer.c:145-169 | over any run, one output for every N inputs, the trimmed mean of just those N |
| `PeerFilter.OutputsAreRobust` | app/ble/nrf_dm_nrf52840_dk_v191/src/peer.c:154-169 | over any run, no output leaves an interval that each window leaves at most E times |
| `PeerFilter.Filter.Add` | app/ble/nrf_dm_nrf52840_dk_v191/src/peer.c:148-169 | the code with its buffer and counter, indices in bounds, is that filter |
| `PeerFilter.Filter.Average` | app/ble/nrf_dm_nrf52840_dk_v191/src/peer.c:132-142 | the averaging loop computes the mean of the values between the two cuts |
| `PeerList.ClosestIsFarthest` | app/ble/nrf_dm_nrf52840_dk_v191/src/peer.c:62-103 | among measured peers the search returns the last of the farthest MCPD entries, and NULL if and only if no MCPD entry is listed |
| `PeerList.ClosestVerdict` | app/ble/nrf_dm_nrf52840_dk_v191/src/peer.c:81-84 | where the search finds that peer, it is the closest if and only if all MCPD entries are equally far |
| `PeerList.TickIs` | app/ble/nrf_dm_nrf52840_dk_v191/src/peer.c:255-272 | what one tick leaves: the entries behind the last expired one, aged; exactly the expired ones freed; the closest one searched again if any expired |
| `PeerList.TickVerdict` | app/ble/nrf_dm_nrf52840_dk_v191/src/peer.c:260-271 | every expired entry goes; no other one goes if and only if no entry that is to stay is in front of one that expires |
| `PeerList.Lifetime` | app/ble/nrf_dm_nrf52840_dk_v191/src/peer.c:255-297 | over any run, from its last measurement on a peer loses one step a tick and is gone after the 20th at the latest |
| `PeerList.ExactLifetime` | app/ble/nrf_dm_nrf52840_dk_v191/src/peer.c:255-297 | over any run, whatever happens to other peers: it is listed if and only if fewer than 20 ticks have passed and none of them removed an entry listed behind it |
| `PeerList.MeasuredPeerIsLost` | app/ble/nrf_dm_nrf52840_dk_v191/src/peer.c:262-266 | the smallest list in which a freshly measured peer is dropped and leaked |
| `PeerList.LossIsReached` | app/ble/nrf_dm_nrf52840_dk_v191/src/peer.c:255-297 | the short run from the empty list that gets there: two peers added, 19 ticks, a measurement of the first, one more tick |
| `PeerList.UnmeasuredPeerWins` | app/ble/nrf_dm_nrf52840_dk_v191/src/peer.c:62-103 | before its first measurement an entry holds an uninitialised result, and can win the search over a measured MCPD peer |
| `PeerSearch.SearchVerdict` | app/ble/nrf_dm_nrf52840_dk_v191/src/peer.c:62-103 | the exact condition for every list, unmeasured entries in any place: the search is right if and only if none of them in front of the farthest MCPD entry is the candidate and farther, and none behind it is as far; without MCPD entries, if and only if an RTT entry meets an RTT candidate |
| `PeerSearch.AppendedVerdict` | app/ble/nrf_dm_nrf52840_dk_v191/src/peer.c:62-103 | for the usual shape, new peers appended behind measured ones: they change the result if and only if one of them is as far as the farthest |
| `PeerSearch.NoRttVerdict` | app/ble/nrf_dm_nrf52840_dk_v191/src/peer.c:62-103 | in the default mode, for lists without RTT entries in any order: the search returns the last of the farthest entries, measured or not, and is right if and only if that one is a measurement |
| `PeerSearch.OnlyUnmeasured` | app/ble/nrf_dm_nrf52840_dk_v191/src/peer.c:92-102 | with unmeasured entries alone the search always returns one of them |
| `PeerList.ClosestIsLive` | app/ble/nrf_dm_nrf52840_dk_v191/src/peer.c:255-297 | over any run of adds, results and ticks addresses stay unique and `closest_peer` is NULL or a listed, allocated entry |
| `PeerList.AddListsPeer` | app/ble/nrf_dm_nrf52840_dk_v191/src/peer.c:348-368 | adding succeeds if and only if the peer is listed afterwards; it is appended with its full timeout, or nothing changes |
| `PeerList.ResultIsTaken` | app/ble/nrf_dm_nrf52840_dk_v191/src/peer.c:282-288 | a measurement replaces the result and restarts the timeout of its peer and touches no other |
| `PeerList.ResultDecidesClosest` | app/ble/nrf_dm_nrf52840_dk_v191/src/peer.c:291-293 | which peer is remembered as the closest after a measurement, by the modes and distances of the measured and the remembered one |
| `PeerList.PeerTracker.PeerFindClosest` | app/ble/nrf_dm_nrf52840_dk_v191/src/peer.c:87-103 | the loop returns what the two rows on the closest peer describe |
| `PeerList.PeerTracker.PeerSupportedAdd` | app/ble/nrf_dm_nrf52840_dk_v191/src/peer.c:348-368 | the add with its heap failure, on mutable fields |
| `PeerList.PeerTracker.OnResult` | app/ble/nrf_dm_nrf52840_dk_v191/src/peer.c:274-297 | one measurement, on mutable fields |
| `PeerList.PeerTracker.OnTimeout` | app/ble/nrf_dm_nrf52840_dk_v191/src/peer.c:255-272 | the sweep loop visits every entry once and in order despite the removals, and leaves what `TickIs` describes |
| `Battery.BatteryLevel` | driver/battery/src/battery.c:235-261 | for every non-increasing curve that ends at zero the search stays in bounds, the divisor is positive, and the unsigned 32-bit arithmetic yields the exact level, between 0 and the first one |
| `Battery.LevelIsMonotone` | driver/battery/src/battery.c:244-260 | the level never falls when the voltage rises, also across segments |
| `Battery.LevelIsExact` | driver/battery/src/battery.c:257-260 | the level is exact at every curve point |
| `Battery.LineIsChord` | driver/battery/src/battery.c:257-260 | between two points the level is the straight chord, rounded down by less than one unit |
| `Battery.LevelIsChord` | driver/battery/src/battery.c:244-260 | inside the curve the level itself is the chord of the segment the voltage falls in, rounded down by less than one unit |
| `Battery.LevelIsBounded` | driver/battery/src/battery.c:254-260 | the level stays between the two points of its segment |
| `Battery.LevelIsCapped` | driver/battery/src/battery.c:240-252 | above the first point it is the first level, below the last one 0 |

## Assumptions

- The two cores see shared memory as sequentially consistent, one field access (one byte, for the window) at a time.
- `bl_validate_firmware`, `boot_swap_type_multi`, `bootutil_img_validate` and the flash, stream and cipher drivers are not
  part of the repository. The checks are arbitrary functions of the flash contents; a swap request depends on the
  secondary slot only; an erase sets bits and a write clears them; `boot_encrypt` is counter mode, section 6.5 of
  NIST SP 800-38A, so that each position has its own key-stream byte. `BOOT_TLV_OFF` and whether the slots are equivalent
  are parameters.
- Power-failure safety needs a hash check that tells damage: no slot reached from the original secondary contents by
  setting bits is accepted unless it holds the image. Plain mode, no downgrade prevention, equal slots. For the fast form
  the image size is read from the image's own bytes, its copy stays inside the slot, and it ends before the magic.
- `sys_slist_remove` is not part of the repository; by its documented contract a NULL predecessor means that the node is
  the list's head.
- UART and peer handlers are atomic; a send that is refused and the enqueueing that follows are one step. What a malloc or
  a driver call answers is a parameter, and a block that is already in use counts as no answer.
- Distances are real numbers.

## Left out

- Swap-mode image exchange (`swap_run`, `swap_read_status`), RAM loading, bootstrapping, measured boot and hardware rollback protection: the routines that do the work are not part of the repository.
- `boot_validated_swap_type`: its address probing and register writes are hardware layout.
- Older copies of the loader and of the UART and peer code: near-duplicates of what is modelled.
- `PcdProtocol.NetKeepsInv`: after a failed stream write the flash behind the written prefix is arbitrary; how the stream buffers and pads a write is not modelled.
- `EncryptedCopy.CopyRegion`: key loading is not modelled, and a cipher call that would overrun the buffer ends the copy, where in the source its effect is undefined.
- `FastOverwrite.FastInstallsImage`: a copy length beyond the slot, which flash drivers refuse, is not modelled; it takes an image that leaves no room for a trailer. `FastBoot` asks the same of the image.
- `Overwrite.FlashDevice.CopyImage`: failing flash operations, on which the source asserts, are not modelled.
- `SwapTypes.LoaderState.PrepareImages`: what an aborted swap moves in flash is not modelled, only its effect on the swap types.
- `UartRx.RxEndToEnd`: `on_error` (which calls `rx_disable` on the target device), negative driver return codes and enabling while a buffer is held are not modelled; receive and transmit blocks come from separate heaps.
- `UartTx.TxEndToEnd`: races finer than a handler, such as a completion between a refused send and its enqueueing, are not modelled.
- `PeerList.ClosestIsLive`: the result queue between `peer_update` and the thread, LED and BLE notifications are not modelled; an entry not measured yet holds an arbitrary result.
- `PeerFilter.TrimmedMeanIsRobust`: floating-point rounding is not modelled.
- Logging, timers' real time, ADC sampling, LTE, MQTT, BLE, SPI and the remaining samples: input and output only.
