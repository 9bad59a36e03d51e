# Readout-list trigger core of the SoLID 2022 CODA readout lists

This project models the per-trigger core of the SoLID CODA readout list. The
TI list (`ti_list.c`) reads the TI trigger block and then calls the handlers
for the FADC250 digitisers (`fa250_rol_include.c`), the SSP/MPD GEM readout
(`ssp_mpd_rol_include.c`) and the SSP/MAROC readout
(`ssp_maroc_rol_include.c`). After the handlers it runs the TI sync-event
check: the sync counter, the pedestal pulser and the drain of leftover TI data.

The model treats every hardware call as an input value (an "oracle"):
- ready polls and scan masks;
- the word counts a block read returns;
- block-error and pending-data registers;
- APV scan and configuration results.

Each handler is then a pure function. It takes the handler's state, the
write cursor `dma_dabufp` (an integer word offset) and the oracle. It returns
the new state, the new cursor and the trace of externally visible actions in
issue order:
- bank open and close;
- block reads with their ceiling;
- token resets and DMA flushes;
- pulser commands and hand-written words.

The modules follow the source files:

| module | file | content |
|---|---|---|
| `Daq` | `daq.dfy` | The action vocabulary and the bank-framing predicate. C integer conversions (`uint32_t`, `int32_t`, `int16_t`) and `LSWAP`. The generic drain loop. |
| `Fadc250` | `fadc250.dfy` | `MAXFADCWORDS`, the readout type, `fa250_Trigger`. |
| `Ti` | `ti.dfy` | The TI part of `rocTrigger` and `rocGo`, and `rocSetTriggerSource`. |
| `SspMpd` | `ssp_mpd.dfy` | `sspMpd_Trigger`, `sspMpd_Go`, the pedestal-mode setters and `setSSPData`. |
| `ApvDecode` | `apv_decode.dfy` | The `sspPrintBlock` decoder, and an encoder of MPD blocks to state round trips against. |
| `MpdSetup` | `mpd_setup.dfy` | `ssp_mpd_setup`: run-once guard, fiber-enable loop, APV scan and configuration retries, per-slot error mask, summary lines. |
| `SspMaroc` | `ssp_maroc.dfy` | `sspMaroc_Trigger`. |
| `Crate` | `crate.dfy` | The composition in `rocTrigger` and `rocGo` for a chosen build: TI role and which handlers are compiled in. |

How some C details are modelled:
- Integer widths are written out where they matter:
  - `MAXFADCWORDS` is `uint32_t`, so it is taken modulo 2^32.
  - `SSP_MAX_EVENT_LENGTH` is `int32_t` and is computed from a `uint32_t` block level.
  - `words_expected` is `int16_t`.
  - The data words are `bv32`.
- The unbounded `while (ready) flush` loops are modelled by a pending count:
  - Each flush removes one pending block.
  - The loop issues exactly as many flushes as blocks were pending.
  - The loop stops when the count is 0.
- The code has no flush ceiling, and the model adds none.
- The window-width term of `MAXFADCWORDS` is `ptw / 2` rounded down, as the
  code computes it. The model does not use a ceiling of W/2.

## Model

| member | source | states |
|---|---|---|
| Daq.Int16 | ssp_mpd_rol_include.c:915 | The stored value is the `int16_t` wrap of its argument: in [-32768, 32767], congruent modulo 2^16, and equal to the argument when it fits. |
| Daq.LSwap | ssp_mpd_rol_include.c:328 | `LSWAP` reverses the bytes of a word: byte i of the result is byte 3 - i of the word. |
| Daq.LSwapInvolution | ssp_mpd_rol_include.c:328 | Swapping the bytes of a word twice gives the word back, so the decoder sees the word the MPD built. |
| Daq.Uint32 | fa250_rol_include.c:130 | Storing into an `unsigned int` such as `MAXFADCWORDS` keeps the value modulo 2^32. It equals the argument when the argument is in range. |
| Daq.Int32 | ssp_mpd_rol_include.c:879 | Storing into an `int32_t` such as `SSP_MAX_EVENT_LENGTH` gives a value in [-2^31, 2^31), congruent to the argument modulo 2^32 and equal to it when it fits. |
| Daq.FlushUntilEmpty | fa250_rol_include.c:224-227 | The flush loop issues exactly as many flushes as blocks are pending, all of the same source, and nothing else. |
| Daq.SyncDrain | fa250_rol_include.c:218-228 | A non-positive ready count issues nothing. A positive count `davail` is reported once, first, and then followed by `davail` flushes of that source. No bank is opened or closed. |
| Daq.SyncDrainCounts | fa250_rol_include.c:219-229 | The sync-event drain of one source reports the residual once and issues exactly `davail` flushes of that source when `davail > 0`. It issues nothing when `davail <= 0`. |
| Fadc250.ReadoutType | fa250_rol_include.c:157-183 | `roType` is 1 exactly when one FADC is present, otherwise 2 (token passing). |
| Fadc250.ReadoutTypeMatchesDownload | fa250_rol_include.c:56-59 | Readout type 1 exactly when Download disabled multiblock, and type 2 exactly when it enabled it. |
| Fadc250.EventWordsClosed | fa250_rol_include.c:123-130 | The per-event words from the commented breakdown are 4 + nchan * (1 + ptw/2). |
| Fadc250.BoardBlockWordsClosed | fa250_rol_include.c:123-130 | The per-board block words from the breakdown are 22 + events * (per-event words). |
| Fadc250.CrateBlockWordsClosed | fa250_rol_include.c:123-130 | Summing the per-board block over nfadc boards gives nfadc times it. |
| Fadc250.MaxWordsIsBreakdown | fa250_rol_include.c:123-130 | The formula `nfadc * (4 + blockLevel * (4 + 16 * (1 + ptw/2)) + 18)` equals the crate-wide sum of the commented breakdown. |
| Fadc250.MaxWordsMonotone | fa250_rol_include.c:130 | The bound does not decrease when nfadc, blockLevel or ptw grows. |
| Fadc250.Go | fa250_rol_include.c:107-136 | For any reported block level, negative included, the stored `MAXFADCWORDS` is the formula modulo 2^32, as the `unsigned int` arithmetic gives. For a level of 0 or more it equals the breakdown whenever the formula fits in 32 bits. |
| Fadc250.TokenResets | fa250_rol_include.c:194-195 | The reset loop issues one token reset per module, in module order 0..n-1. |
| Fadc250.ReadoutBank | fa250_rol_include.c:172-211 | On every path the FADC bank part starts with BANKOPEN(FADC_BANK) and ends with BANKCLOSE. |
| Fadc250.BankHasNoDrainActions | fa250_rol_include.c:172-211 | The bank part issues no flush and reports no residual data. Those happen only in the sync check that follows. |
| Fadc250.DrainLeavesTi | fa250_rol_include.c:215-231 | The sync-event drain over the FADC boards issues no TI action. |
| Fadc250.TokenResetsCount | fa250_rol_include.c:194-195 | The reset loop resets the token of each module 0..n-1 exactly once and of no other module. |
| Fadc250.ReadoutBankFramed | fa250_rol_include.c:172-211 | On every path the FADC bank is opened once and closed once, and banks are properly paired. |
| Fadc250.ReadoutBankReads | fa250_rol_include.c:175-184 | A block read is issued exactly when `datascan == scanmask`, and it is always `faReadBlock(0, MAXFADCWORDS, roType)`. |
| Fadc250.ReadoutBankMismatch | fa250_rol_include.c:206-210 | On a scan mismatch the cursor is unchanged and no block read or token reset happens. |
| Fadc250.ReadoutBankClean | fa250_rol_include.c:200-204 | Without a block error the cursor advances by exactly nwords and only module 0's token is reset, once. |
| Fadc250.ReadoutBankError | fa250_rol_include.c:187-199 | On a block error every module 0..nfadc-1 gets exactly one token reset, and the cursor advances by nwords only when it is positive. |
| Fadc250.Drain | fa250_rol_include.c:215-231 | The sync check over boards 0..n-1 issues only residual reports and flushes, all of FADC boards below n. |
| Fadc250.DrainHasNoBanks | fa250_rol_include.c:215-231 | The sync drain opens and closes no bank. |
| Fadc250.DrainFlushCount | fa250_rol_include.c:217-230 | Module m's window is flushed exactly `pending(m)` times if m < nfadc and data was pending, otherwise never. |
| Fadc250.DrainReportCount | fa250_rol_include.c:219-223 | Each module with leftover data is reported exactly once with its count. Modules without leftover data are not reported. |
| Fadc250.Trigger | fa250_rol_include.c:211-231 | The sync drain after the bank does not move the cursor. |
| Fadc250.TriggerDrains | fa250_rol_include.c:153-233 | The whole handler keeps the bank framed once. It flushes and reports only on a sync event (`syncFlag == 1`), exactly per pending module. |
| Fadc250.TriggerLeavesTi | fa250_rol_include.c:215-231 | The FADC handler issues no TI action: no TI read, no pulser command, no flush of the TI window. |
| Ti.ReadTriggerBlock | ti_list.c:354-363 | The TI block is read, and the cursor advances by dCnt when dCnt > 0 and stays otherwise. |
| Ti.PulserStep | ti_list.c:377-392 | A sync event raises `current` by one and other triggers leave all state alone. Below the pedestal count the pulser is re-armed. From the pedestal count on, `doOnce` rises and the trace is exactly one pulser stop when `doOnce` was 1, and empty otherwise. |
| Ti.SyncCheck | ti_list.c:377-405 | Off a sync event nothing happens. On one, the state is the pulser step's and the pulser actions come first, before the drain. |
| Ti.SyncCheckDrains | ti_list.c:394-405 | On a sync event the TI window is flushed exactly `tiPending` times when data is pending. The check opens no bank and changes the state as the pulser step does. |
| Ti.PulserRun | ti_list.c:377-392 | Over any run only `current` of the sync configuration changes, the trigger source is kept, and neither `current` nor `doOnce` falls. |
| Ti.SaturatedClosed | ti_list.c:382-386 | Closed form of the number of sync events, among k more, that find `current >= pedestal`. |
| Ti.PulserRunCounts | ti_list.c:377-392 | Over any run of triggers:<br>- `current` rises by the number of sync events;<br>- `doOnce` rises by the number of saturated sync events;<br>- the pulser is re-armed once per unsaturated sync event;<br>- a stop is issued once, exactly when `doOnce` passes 1. |
| Ti.PulserStoppedOnSecondSaturation | ti_list.c:382-386 | From the initial state the pulser stop is issued exactly once if at least two sync events reach the pedestal count, and never otherwise. |
| Ti.Go | ti_list.c:213-293 | A slave keeps the reported levels exactly when buffer level <= 10 and block level <= 1, and otherwise falls back to 1 for both. A master takes the block level as reported. For TS-input triggers with pedestal > 1 a master resets `current` to 0 and arms the pedestal pulser; with pedestal <= 1 it issues nothing. For source 1 it arms the random pulser, for source 2 the fixed pulser, for any other source nothing. |
| Ti.GoArmsPedestal | ti_list.c:279-291 | After a master's Go with TS-input triggers and pedestal > 1, the pedestal pulser is armed once by Go and then re-armed on each of the next `pedestal - 1` sync events, whatever `current` held before Go. |
| Ti.TriggerInputFor | ti_list.c:102-109 | Source 0 selects the TS inputs and any other source selects the pulser. |
| Ti.SetTriggerSource | ti_list.c:447-474 | With `TIPRIMARYflag == 1`, or on a slave, nothing changes. Otherwise the source is stored and the matching input is selected. |
| SspMpd.PollFrom | ssp_mpd_rol_include.c:933-942 | The poll ends at the first nonzero answer or at the maximum, and makes one more ready call than its final count. |
| SspMpd.PollTimeoutIff | ssp_mpd_rol_include.c:933-951 | At most 10001 ready calls are made. The timeout branch is taken exactly when the first 10000 answers are all 0. |
| SspMpd.ReadCeiling | ssp_mpd_rol_include.c:1045 | The normal read ceiling is `SSP_MAX_EVENT_LENGTH` divided by 4 and rounded down. |
| SspMpd.Latch | ssp_mpd_rol_include.c:1070-1073 | `words_expected` is untouched while evt < 5. It is set to dCnt as `int16_t` when it still holds -1. Any other value is kept. |
| SspMpd.TriggerTimeout | ssp_mpd_rol_include.c:951-991 | On timeout, `wc` words are requested and the cursor advances by dCnt only when dCnt > 0. `errorCount` and `tcnt` rise by exactly one and the latch is untouched. |
| SspMpd.TriggerReady | ssp_mpd_rol_include.c:1045-1073 | When ready in time, the read ceiling is `SSP_MAX_EVENT_LENGTH >> 2`, the error count is unchanged and the latch is updated. |
| SspMpd.TriggerReadyForwards | ssp_mpd_rol_include.c:1061-1063 | With `SSP_READOUT` set, the cursor moves by dCnt whatever its sign and no word is written. |
| SspMpd.TriggerReadyWritesOneWord | ssp_mpd_rol_include.c:1065-1068 | With `SSP_READOUT` clear, exactly one word, the swapped timeout count, is written and the cursor moves by one. |
| SspMpd.Trigger | ssp_mpd_rol_include.c:914-1147 | One trigger counts one event and counts an error exactly on a poll timeout. It leaves `SSP_READOUT`, `SSP_MAX_EVENT_LENGTH` and the pedestal mode alone. Its trace is the bank open, one block read, at most one hand-written word and the bank close. |
| SspMpd.TriggerFramed | ssp_mpd_rol_include.c:931-1147 | The MPD bank is opened once and closed once on every path. |
| SspMpd.Run | ssp_mpd_rol_include.c:914-1147 | Over any run `evt` rises by the number of triggers, and the configuration stays as it was. |
| SspMpd.RunLatch | ssp_mpd_rol_include.c:914-1142 | Over any run:<br>- `evt` counts the triggers;<br>- the error count never falls;<br>- the latch is untouched while evt stays below 5;<br>- once the latch holds a value other than -1 it keeps it. |
| SspMpd.LatchedValue | ssp_mpd_rol_include.c:1071-1072 | At the first ready event with evt >= 5 and the latch still -1, the latch takes dCnt as `int16_t`. |
| SspMpd.Go | ssp_mpd_rol_include.c:873-879 | `SSP_MAX_EVENT_LENGTH` becomes 32000*12*blockLevel, reduced modulo 2^32, and equals it whenever it fits in `int32_t`. Nothing else changes. |
| SspMpd.GoCeiling | ssp_mpd_rol_include.c:879-1045 | After Go the normal read ceiling is 96000 * blockLevel words, when the byte count 384000 * blockLevel fits in `int32_t`. |
| SspMpd.SetPedSubtractionMode | ssp_mpd_rol_include.c:54-68 | With `TIPRIMARYflag == 1` nothing changes. Otherwise the mode becomes 1 exactly for a nonzero argument and 0 for zero. |
| SspMpd.Download | ssp_mpd_rol_include.c:790-797 | The mode asked for is 1 exactly when the user string is "SSPPedSub". |
| SspMpd.SetSspData | ssp_mpd_rol_include.c:1193-1203 | `SSP_READOUT` becomes 1 exactly for a nonzero argument and 0 for zero, and nothing else changes. |
| SspMpd.TriggerLeavesTi | ssp_mpd_rol_include.c:1150-1172 | The MPD handler, sync check included, issues no TI action. |
| ApvDecode.SignExtend13 | ssp_mpd_rol_include.c:347-350 | A 13-bit field read as signed lies in [-4096, 4095]. It equals the field or the field minus 0x2000, and it is negative exactly when bit 12 is set. |
| ApvDecode.SignBit | ssp_mpd_rol_include.c:348 | The `& 0x1000` test of the source is exactly the negative case. |
| ApvDecode.SignExtendByOr | ssp_mpd_rol_include.c:348 | Or-ing 0xfffff000 into a field with bit 12 set is subtracting 0x2000 modulo 2^32. |
| ApvDecode.Sample | ssp_mpd_rol_include.c:347-350 | Every sample the decoder stores is in [-4096, 4095]. |
| ApvDecode.ChannelBound | ssp_mpd_rol_include.c:353-355 | Five low channel bits with two high bits or-ed in at bit 5 give a channel below 128. |
| ApvDecode.DataWordStep | ssp_mpd_rol_include.c:346-364 | A data word keeps the decoder in range and in the block, advances `pos` by one and prints at most one line, all in range. |
| ApvDecode.DecodeWord | ssp_mpd_rol_include.c:325-365 | One loop pass keeps the decoder in range and prints at most one line, only inside a tag-5 block. Outside a tag-5 block it leaves samples and channel alone. |
| ApvDecode.StepTag | ssp_mpd_rol_include.c:332-337 | A word with bit 31 set names the new tag `(val >> 27) & 0xf`. Any other word keeps the tag. |
| ApvDecode.DecodeFrom | ssp_mpd_rol_include.c:325-365 | Decoding keeps the decoder state well formed and prints at most one line per word. |
| ApvDecode.PrintBlock | ssp_mpd_rol_include.c:320-366 | `sspPrintBlock` prints at most one line per word of the buffer. |
| ApvDecode.DecodeAppend | ssp_mpd_rol_include.c:325-365 | Decoding a concatenation decodes the second part from the state the first part left. |
| ApvDecode.PrintedInRange | ssp_mpd_rol_include.c:346-360 | Every printed line has channel in [0, 127], APV in [0, 31] and samples in [-4096, 4095]. |
| ApvDecode.FirstWord | ssp_mpd_rol_include.c:346-353 | The first word of a group stores samples 0 and 1 and sets the five low channel bits. |
| ApvDecode.SecondWord | ssp_mpd_rol_include.c:346-355 | The second word stores samples 2 and 3 and or-s in the two high channel bits. |
| ApvDecode.ThirdWord | ssp_mpd_rol_include.c:346-360 | The third word stores samples 4 and 5, sets the APV number and prints the line. |
| ApvDecode.HeaderStep | ssp_mpd_rol_include.c:332-343 | A tag-5 header prints the MPD rotary and fiber line and starts the block at position 1, whatever came before. |
| ApvDecode.GroupRoundTrip | ssp_mpd_rol_include.c:346-364 | The three words of an encoded channel print exactly that channel's line: APV, channel, six sign-extended samples. |
| ApvDecode.GroupsRoundTrip | ssp_mpd_rol_include.c:325-365 | A run of encoded channels prints their lines in order and ends at a group start. |
| ApvDecode.BlockRoundTrip | ssp_mpd_rol_include.c:325-365 | Decoding an encoded tag-5 block prints its header line and then one line per channel, in order, from any decoder state. |
| ApvDecode.OtherTagsSkipped | ssp_mpd_rol_include.c:339-340 | After a header of another tag, words without bit 31 print nothing and change nothing. |
| MpdSetup.RunsBound | ssp_mpd_rol_include.c:370-372 | Over n calls from a counter of 0 the body runs exactly once (none for n = 0). In general it runs as many times as the counter read is not positive. |
| MpdSetup.EnableFibers | ssp_mpd_rol_include.c:417-426 | The shift loop enables exactly the fibers whose bit is set in the mask, in increasing order. |
| MpdSetup.ScanFrom | ssp_mpd_rol_include.c:578-590 | The retry ends at the first scan that finds APVs or after three retries. It makes one more scan call than retries, and every skipped scan found nothing. |
| MpdSetup.ScanFlagIff | ssp_mpd_rol_include.c:586-598 | At most four scans are made. `try_cnt == 3`, which flags the slot, holds exactly when the first three scans found nothing. |
| MpdSetup.ConfigFrom | ssp_mpd_rol_include.c:628-673 | Configuration stops at the first error-free pass, after at most three. The result is failed exactly when the last pass failed, which forces three passes. Each failed pass is followed by one APV reset. |
| MpdSetup.ConfigFailIff | ssp_mpd_rol_include.c:630-673 | The configuration fails exactly when all three passes fail. Without APVs one clean pass is made. |
| MpdSetup.Configure | ssp_mpd_rol_include.c:569-693 | Corrected loop: it never clears a flagged slot or an error status, and it flags only slots of the MPDs it visits. |
| MpdSetup.ConfigureAsWritten | ssp_mpd_rol_include.c:569-693 | Loop as written: it never clears a flagged slot or an error status, and it flags only slots of the MPDs it visits. |
| MpdSetup.ConfigureFlags | ssp_mpd_rol_include.c:569-693 | Corrected loop: a slot is in the error mask exactly when its own scan, reset or configuration failed. The status records whether any MPD had a reset or configuration error. |
| MpdSetup.AsWrittenStatus | ssp_mpd_rol_include.c:600-678 | The loop as written computes the same overall status as the corrected one, and never clears a flagged slot. |
| MpdSetup.AsWrittenCarries | ssp_mpd_rol_include.c:628-678 | As written, once the shared status is an error every later slot is flagged. |
| MpdSetup.AsWrittenFlags | ssp_mpd_rol_include.c:600-678 | As written, a slot is flagged exactly when its own scan, reset or configuration failed, the status started as an error, or some earlier MPD had a reset or configuration error. The final status is an error exactly when it started so or some MPD had such an error. |
| MpdSetup.SharedStatusFlagsGoodSlot | ssp_mpd_rol_include.c:602-678 | As written, a failed APV reset on slot 3 flags the following, error-free slot 4. The corrected loop does not flag slot 4. |
| MpdSetup.PatternLength | ssp_mpd_rol_include.c:713-729 | The pattern for n bits has n characters plus one space per full group of four. |
| MpdSetup.PatternOnes | ssp_mpd_rol_include.c:719-723 | The number of '1' characters in the pattern is the number of set bits. |
| MpdSetup.PatternRoundTrip | ssp_mpd_rol_include.c:713-728 | Reading the pattern back, spaces skipped and most significant digit first, gives exactly the low n bits of the mask. |
| MpdSetup.SummaryPattern | ssp_mpd_rol_include.c:712-729 | The bit loop prints 20 characters. The #APV count is the number of '1's, the popcount of the low 16 bits. The pattern encodes exactly those bits. |
| MpdSetup.PrintedSummary | ssp_mpd_rol_include.c:713-728 | Running the loop from bit 15 down to bit 0 prints the pattern of all sixteen summary bits. That is 20 characters, one '1' per set bit, and read back it is the low 16 bits of the mask. |
| MpdSetup.Summary | ssp_mpd_rol_include.c:704-743 | One summary line per MPD in `mpdSlot` order. A zero mask gives the error line. Otherwise the line has the pattern, the count and the INIT ERRORS mark exactly for flagged slots. |
| MpdSetup.SummaryLineFor | ssp_mpd_rol_include.c:706-742 | The line for one MPD: the error line for a zero enable mask, otherwise the 16-bit pattern, its count of enabled APVs and the INIT ERRORS mark exactly when the slot is flagged. |
| MpdSetup.BringUp | ssp_mpd_rol_include.c:368-564 | The set-up body runs only on the first call, and a configuration file error stops before the fibers. Otherwise the fibers are enabled per mask, the pedestal mode drops to 0 without a pedestal file, and without an MPD the set-up stops. |
| MpdSetup.Setup | ssp_mpd_rol_include.c:368-778 | The corrected set-up. After the bring-up, each MPD is configured and summarised in mpdSlot order. A slot is in the error mask exactly when its own scan, reset or configuration failed. |
| MpdSetup.SetupAsWritten | ssp_mpd_rol_include.c:368-778 | The set-up as written. The same bring-up and summary, but a slot is in the error mask also when any earlier MPD had a reset or configuration error. |
| SspMaroc.PollFrom | ssp_maroc_rol_include.c:123-133 | The poll stops at the first nonzero answer or after 100000 calls, and every earlier answer was 0. |
| SspMaroc.PollReadyIff | ssp_maroc_rol_include.c:123-133 | No ready was seen exactly when all 100000 answers were 0. |
| SspMaroc.Trigger | ssp_maroc_rol_include.c:107-176 | The counter rises by one only when no ready was seen. The block is read with ceiling 0x10000 whether ready or not. The cursor moves by `len` and dCnt equals `len`. The bank number is the global blockLevel. |
| SspMaroc.TriggerCounts | ssp_maroc_rol_include.c:135-140 | `ssp_not_ready_errors[13]` rises by one exactly when every poll answer was 0, and is unchanged exactly when some answer was nonzero. The bank is framed. |
| SspMaroc.TriggerLeavesTi | ssp_maroc_rol_include.c:107-176 | The MAROC handler issues no TI action. |
| Crate.TriggerPhases | ti_list.c:345-375 | The TI block is always read. A handler that is not built issues nothing and leaves the cursor and its state where they were. The sync check runs on the TI state. |
| Crate.RocTrigger | ti_list.c:345-411 | The trace starts with the TI block read. The FADC configuration and the block level are unchanged, the TI state is the pulser step's, and handlers that are not built keep their state. |
| Crate.RocTriggerTiCount | ti_list.c:345-411 | Every TI action of a trigger comes from the TI block read or the sync check, none from a module handler. |
| Crate.RocTriggerReadsTiFirst | ti_list.c:350-375 | The TI trigger block is the first action of every trigger and is read exactly once. |
| Crate.RocTriggerSync | ti_list.c:377-405 | Over the whole trigger, `current` rises by one exactly on a sync event, and `doOnce` follows the pulser step. The TI window is flushed exactly `tiPending` times on a sync event with data pending. The pulser stops are exactly the pulser step's. |
| Crate.RocTriggerFramed | ti_list.c:345-411 | Whatever handlers are built in, the banks of one trigger are properly paired. |
| Crate.RocTriggerMarocBank | ssp_maroc_rol_include.c:112 | With the MAROC handler built in, its bank is opened with the global blockLevel as its number. |
| Crate.RocGo | ti_list.c:213-307 | The TI state and trace are what the TI part of Go gives. The MAROC state is unchanged, and the FADC and MPD sizes change only when those handlers are built. |
| Crate.RocGoBlockLevel | ti_list.c:220-307 | With the FADC handler built in, the global block level is what the TI reports, because `fa250_Go` reads it again. Without that handler, a slave with invalid levels uses 1. Invalid levels always force buffer level 1. `MAXFADCWORDS` and the MPD read ceiling follow from the reported level. |
| Crate.SlaveFallbackSkipsModules | fa250_rol_include.c:112-117 | On a slave with FADC and MAROC handlers and a reported block level of 2, the buffer falls back to 1, but the next MAROC bank still carries block level 2. |

## Left out

- VME, DMA and register access (`faReadBlock`, `sspReadBlock`, `vmeDmaFlush`, status reads). These are hardware calls and become oracle inputs.
- The data words a block read writes are not modelled. Only the ceiling requested and the count returned are.
- `printf`, `daLogMsg`, the DALMA buffering and the status dumps are display-only. The summary lines are modelled as records, without the `%2d` text framing.
- The debug-only `sspPrintBlock` hex dump and line breaks are left out; only the decoded lines are kept.
- The configuration and pedestal/common-mode file reading is file I/O with float parsing. Only its outcome is modelled: config-init OK or not, and pedestal file found or not.
- Hardware bring-up (`sspInit`, `mpdInit`, I2C, DELAY25, ADC configuration, 101 reset, `faInit`) is left out beyond the scan, reset and configuration outcomes.
- `vmeBusLock`, `sleep`/`usleep` and the log-buffer `malloc`/`free` are locking, timing and memory plumbing.
- The commented-out recovery code and the `DEBUG`/`LOUD` builds are left out. The TI role and the compiled-in handlers are a build parameter (`Crate.Build`).
- The MPD sync check only logs, so it has no action in the trace.
- The `errorCount > 10` branch of `sspMpd_Trigger` is empty, so it has no action in the trace.
- `tiSetTriggerSourceMask` in `rocGo`'s pedestal branch writes a register; the trace does not record it.
- The `faGSetBlockLevel`, `sspSetBlockLevel` and `faGEnable` writes of the Go handlers write registers and are not recorded.
- `sspMaroc_Go` only writes the block level to the SSP, so it has no modelled effect.
- Daq.SyncDrainCounts: the flush loops `while (faBready(...))` and `while (tiBReady())` are modelled by the pending count: one flush per pending block. A board whose ready count does not fall as it is flushed would make the C loop spin forever; the model does not represent that.
- `errSlotMask` is a set of slots, not a 32-bit mask, so shifting by a slot number of 32 or more is not modelled.
- `tcnt`, `errorCount`, `evt`, `ssp_not_ready_errors`, the TI sync counter `tiSyncEventConfig.current` (a C `int`) and the `static int32_t doOnce` of `rocTrigger` are unbounded integers. The model does not wrap them at 32 bits.
- Ti.PulserRunCounts: the stop is counted with an unbounded `doOnce`. In C, `doOnce` would wrap back to 1 after 2^32 saturated sync events and a second stop would follow; `current` would wrap after 2^31 sync events and re-arm the pulser. Runs that long are not modelled.
- Ti.PulserStoppedOnSecondSaturation: "exactly once" holds for the unbounded `doOnce`; the 2^32-event wrap of the `int32_t` is not modelled, as for Ti.PulserRunCounts.
- MpdSetup.Setup: composes the corrected loop of the Findings row, not the as-written `errSlotMask` carry. The code as written is MpdSetup.SetupAsWritten.
- Crate.RocTriggerSync: the TI sync flag is one input read by both `fa250_Trigger` and `rocTrigger`; the model does not represent a register that changes between the two reads.
- The uninitialised C locals `tag`, `ch`, `apv` and `d[]` of `sspPrintBlock` start at 0. A negative `dCnt` is not modelled: `while (dCnt--)` would run until wrap-around.
- `mpdGetNumberAPV` is taken to be one number per MPD, the same at every call.
- MpdSetup.Summary: the `(1 << id)` test of the summary is modelled as membership of the slot in the error set.
- The `NO_MPD_TEST` build and the `OLDOUTPUT` summary copy are left out.

## Findings

| source | as written | input that shows it | evidently intended | confidence | as-written member | corrected member |
|---|---|---|---|---|---|---|
| ssp_mpd_rol_include.c:602-678 | `error_status` is set by a failed APV reset, never reset between MPDs, and saved into `saveError`. `error_status \|= saveError` then flags the current slot for any earlier MPD's error. | MPDs in slots 3 and 4. Slot 3's APV reset fails; slot 4 scans, resets and configures cleanly. Slot 4 is still put in `errSlotMask` and its summary line says INIT ERRORS. | Each slot is flagged for its own scan, reset or configuration errors. The shared status only feeds the final "MPD initialization has errors" message. | not executed | MpdSetup.SharedStatusFlagsGoodSlot | MpdSetup.ConfigureFlags |
