# Boot, update, settings and arithmetic of the G100 board: models and proofs

A Dafny model of four parts of the system, and proofs about them:

- **Power-fail-safe boot and update** (`Bytes`, `Crc`, `BootFormat`, `BoardMemory`, `BootState`, `BootSafety`,
  `BootPolicy`, `OtaAuth`, `OtaUpdate`, `Board`, `HostImage`, `Protocol`). A NOR flash as bytes with erase and page
  program, the two-bank boot records, trial boots, the upload service, stage 0, and the host client over a lossy link.
  The central invariant, `BootSafety.Safe`, says that a readable record names a confirmed slot that boots, that a trial
  it names boots as well, and that the records so far form a legal history. `Board.Board.Run` keeps it over every
  sequence of requests, ticks, settings saves, boots and power cuts at any flash operation.
- **Settings** (`ConfigFormat`, `ConfigStore`, `SettingsService`). The two-bank settings store on the same flash, and
  the candidate, apply, confirm and rollback machine on top of it.
- **Multi-precision arithmetic** of Mbed TLS (`Arithmetic`, `Limbs` to `ModularInverse`). Limb arrays updated in place:
  Montgomery multiplication, windowed exponentiation, constant-loop GCD and inverse, long division, number text.
- **JSON** (`JsonText` to `JsonLookup`). A grammar of documents as an independent reference, the parser that meets it
  in both directions, the token array it fills, and the printer.

Objects whose functions change state are classes (`Nor`, `BootInfo`, `Auth`, `Ota`, `Board`, `Client`, `Service`,
`Mpi`, `Json`), loops are loops over arrays, and formats and encodings are functions.

Faults: every erase and program may be cut short at any byte, report failure although it succeeded, or lose power; a
program may also report success with bytes missing.
When power is lost, no later operation has an effect until the next boot, which starts from fresh RAM. The one
assumption about hardware is `BoardMemory.TornErase`: an interrupted erase of a sector that starts a record leaves that
record as it was or no longer valid. SHA-256 and HMAC are uninterpreted functions.

## Findings

Where the obvious claim is false, the code is modelled as it is, and the exact condition is proved.

- `BoardMemory.MetadataGuardExact`: the metadata range check admits ranges that wrap around 2^32. No caller passes one.
- `BootPolicy.BootConfirm`: confirming is not idempotent. The trial flag stays set, so a repeat fails.
- `SmallModulus.ExactDivisors`: `mbedtls_mpi_mod_int` is right for all numbers only for divisors up to 2^16 and divisors
  of 2^32. Any other divisor has a number with a wrong remainder.
- `SignedExpMod.ResultExact`: with a negative base and an odd exponent, `mbedtls_mpi_exp_mod` returns N instead of 0
  when the power is a multiple of N. When X is A, which its documentation allows, the sign of A is lost. An exponent
  without limbs gives 1 even for N = 1. `SignedExpMod.WrongResults` has an input for each.
- `Division.QuotientExact` and `Division.RemainderExact`: the documentation of `mbedtls_mpi_div_mpi` forbids all aliasing
  of results with operands, the library itself relies on some, and these lemmas say exactly which is harmless. A
  remainder may overwrite either operand; a quotient may overwrite a positive one, if it is the divisor or no remainder
  is wanted. `Division.AliasedDivisionWrong` divides -7 by 3 into -7.
- `HostImage.LatestAgrees`: the host's highest sequence number is the firmware's choice only if the two numbers are less
  than half the range apart, and `HostImage.LatestDisagrees` has two records for which it is not.
  `HostImage.HostSeesRecord` shows that they agree on every run from a provisioned state.
- `ConfigStore.CompleteConfig`: a text of fewer than two characters is written but never read back
  (`ConfigStore.ShortTextUnread`).
- `SettingsService.Service.SaveTexts`: a save can report failure although its record took force. The new pair is in force
  exactly if the commit word landed (`ConfigStore.Save`); store and texts in use then agree exactly if it is that pair.
  `ConfigStore.LandedUnreported` and `SettingsService.AgreementLost` show the failure at a concrete flash; until the next
  save or restart the store then holds a pair that is not in use.
- `SignedExpMod.DocumentedRadix`: the documentation of `mbedtls_mpi_core_exp_mod` gives the square of one limb's radix for
  RR; the code needs, and is given, the square of R. The documented value serves exactly if N divides
  (2^32)^(2n-2) - 1 for its n limbs: for one limb always, for 2^32 + 3 not (`SignedExpMod.TwoLimbRadix`).

## Model

| member | source | states |
|---|---|---|
| Crc.Compute | firmware/memory-platform/boot_state.c:6-14 | the bitwise loop over bytes and bits computes the CRC defined as a fold over the bytes |
| Crc.AddBytes | SetAPIs_Calling/firmware/app/ota_update.c:176-179 | the inner loop of the chunked hash advances the running CRC by the fold of the chunk |
| Crc.FoldConcat | SetAPIs_Calling/firmware/app/ota_update.c:169-182 | folding chunk after chunk is folding the whole payload, for any split |
| BootFormat.HeaderRoundTrip | firmware/memory-platform/boot_state.c:19-22 | decoding the 128 bytes of an image header gives the header back |
| BootFormat.HeaderBytesRoundTrip | firmware/memory-platform/boot_state.c:19-22 | encoding a decoded header gives its 128 bytes back, so header bytes and headers correspond one to one |
| BootFormat.MetaRoundTrip | firmware/memory-platform/boot_state.c:43-46 | decoding the 64 bytes of a boot record gives the record back |
| ConfigFormat.ConfigHeaderRoundTrip | firmware/memory-platform/config_store.c:8-12 | decoding the 32 bytes of a settings header gives the header back |
| BoardMemory.GuardsExact | firmware/memory-platform/board_memory.c:117-154 | the image and config range checks admit exactly the non-empty ranges inside one slot or one bank, wrap-around included |
| BoardMemory.MetadataGuardExact | firmware/memory-platform/board_memory.c:113-116 | the metadata range check is the intended range if and only if the range does not wrap below the records' sectors: the exact condition of a check that is not exact |
| BoardMemory.MetadataGuardWraps | firmware/memory-platform/board_memory.c:113-116 | a concrete wrapping range that the metadata check admits although it lies outside both sectors |
| BoardMemory.ErasedHoldsNoRecord | firmware/memory-platform/board_memory.c:123-134 | a sector that reads as erased holds no valid record of any kind, so the assumption on torn erases is met by every erase that completes |
| BoardMemory.Nor.EraseSector | firmware/memory-platform/board_memory.c:123-128 | an erase touches one sector only, and leaves it erased, or torn under the stated assumption; it succeeds without faults, does nothing without power, and the history of records in force follows the flash |
| BoardMemory.Nor.ProgramPage | firmware/memory-platform/board_memory.c:135-140 | programming ANDs a prefix of the data into one page; without a fault the prefix is all of it and success is reported, with one either may fail on its own, so that data may be missing after success or complete after failure; no byte is programmed twice if the cells were erased; without power nothing changes |
| BoardMemory.Nor.MetadataErase | firmware/memory-platform/board_memory.c:129-131 | either refused with the flash unchanged, or an erase of exactly one of the two record sectors; an admitted erase succeeds without faults |
| BoardMemory.Nor.ImageErase | firmware/memory-platform/board_memory.c:132-134 | either refused with the flash unchanged, or an erase of an aligned sector inside slot A or B |
| BoardMemory.Nor.ConfigErase | firmware/memory-platform/board_memory.c:155-157 | either refused with the flash unchanged, or an erase of an aligned sector inside a settings bank |
| BoardMemory.Nor.MetadataProgram | firmware/memory-platform/board_memory.c:141-144 | either refused with the flash unchanged, or programs within one page inside a record sector |
| BoardMemory.Nor.ImageProgram | firmware/memory-platform/board_memory.c:145-148 | either refused with the flash unchanged, or programs within one page inside slot A or B |
| BoardMemory.Nor.ConfigProgram | firmware/memory-platform/board_memory.c:158-161 | either refused with the flash unchanged, or programs within one page inside a settings bank |
| BootState.NextIsLater | firmware/memory-platform/boot_state.c:49 | a successor that did not wrap to 0 is later than its predecessor in the signed wrap comparison, and not the other way round |
| BootState.OldStaysInForce | firmware/memory-platform/boot_state.c:43-53 | losing the bank that is not in force leaves exactly the old record readable |
| BootState.NewTakesForce | firmware/memory-platform/boot_state.c:43-53 | a complete record with the next sequence number in the other bank is the record in force, and the two banks differ by one |
| BootState.ProgramBody | firmware/memory-platform/boot_state.c:64-67 | erasing the target bank and programming the body leaves the record in force and the history as they are, whatever is interrupted; success means the whole body under an erased commit word |
| BootState.Commit | firmware/memory-platform/boot_state.c:62-71 | erase, program, compare, magic last, compare: whatever step is interrupted, the bank holds the complete record or no valid record, and nothing outside its sector changes; success means the complete record |
| BootState.MetaWrite | firmware/memory-platform/boot_state.c:54-72 | atomic: after a cut anywhere the record in force is exactly the old or exactly the new one, no byte is programmed twice, adjacent sequence numbers stay adjacent, success means the new one, and without faults every valid record is written |
| BootSafety.HighWaterMonotone | SetAPIs_Calling/firmware/app/ota_update.c:54-62 | over every history of records, the highest generation a record knows never decreases |
| BootSafety.ActivationsIncrease | SetAPIs_Calling/firmware/app/ota_update.c:206-217 | over every history no generation is activated twice: activations strictly increase the generation and the high-water mark |
| BootSafety.BoundedTrials | firmware/memory-platform/boot_policy.c:7-16 | in every history at most MAX_TRIAL_ATTEMPTS trial boots of one generation are committed |
| BootSafety.SafeAfterMetaWrite | firmware/memory-platform/boot_state.c:54-72 | an atomic record write keeps the never-bricked invariant if the new record is a legal successor whose images are present |
| BootSafety.SafeAfterSlotWrite | SetAPIs_Calling/firmware/app/ota_update.c:122-150 | writes inside the slot that the record in force does not name keep the never-bricked invariant |
| BootPolicy.BootConfirm | firmware/memory-platform/boot_state.c:73-86 | confirming keeps the invariant, replaces the record by its confirmation or leaves it, touches nothing else, fails without effect unless the trial on record is the running one, and cannot be repeated: after it succeeds on a trial the same call is no longer possible |
| BootPolicy.WriteTrial | firmware/memory-platform/boot_policy.c:9-10 | a trial record is written atomically as a legal successor, appended to the history if it succeeds |
| BootPolicy.RetireTrial | firmware/memory-platform/boot_policy.c:17-23 | the record becomes the one without the trial whose reserved word is the larger of itself and the trial generation, or stays as it was, never anything else, and becomes it without faults; the confirmed slot and generation stay either way |
| BootPolicy.SelectApplication | firmware/memory-platform/boot_policy.c:3-27 | from a provisioned state a slot is always selected, it holds a valid image of the recorded generation, a trial is started only after its increment was committed, and otherwise the confirmed slot is chosen; a due trial is started when there is no fault |
| BootPolicy.NeverUnreadable | firmware/memory-platform/boot_state.c:53 | in a state that keeps the invariant there is always a readable record |
| BootPolicy.ConfirmedBoots | firmware/memory-platform/boot_policy.c:24-26 | in a state that keeps the invariant the confirmed slot validates and has the confirmed generation |
| Text.ParseUint | SetAPIs_Calling/firmware/app/ota_update.c:24-30 | accepts exactly the non-empty digit strings below 2^32, leading zeros allowed, and returns their value; the overflow guard is exact |
| Text.DecimalRoundTrip | installer/ethernet.py:194 | the client's decimal offset parses back to the offset |
| OtaAuth.Auth.Challenge | SetAPIs_Calling/firmware/app/ota_auth.c:39-47 | draws a nonce once per reset with sequence 1, never changes it afterwards, and is ready exactly when provisioned, random and not exhausted |
| OtaAuth.Auth.Request | SetAPIs_Calling/firmware/app/ota_auth.c:48-60 | accepts exactly the authentic requests for the current sequence number, and consumes that number; a refused request consumes none, and the accepted numbers strictly increase, so none is accepted twice |
| OtaAuth.Auth.Response | SetAPIs_Calling/firmware/app/ota_auth.c:61-66 | signs one response per accepted request, with the number of that request, and nothing otherwise |
| OtaUpdate.StartSector | SetAPIs_Calling/firmware/app/ota_update.c:142-144 | on entering a sector, an erase leaves the stored payload alone and the page free |
| OtaUpdate.FillPage | SetAPIs_Calling/firmware/app/ota_update.c:145-148 | programming a page part extends the stored payload by exactly that part, without programming a byte twice |
| OtaUpdate.StoreChunk | SetAPIs_Calling/firmware/app/ota_update.c:140-150 | the page loop extends the stored payload by exactly the chunk, inside the payload area of the target slot, without programming a byte twice |
| OtaUpdate.OpenRecord | SetAPIs_Calling/firmware/app/ota_update.c:102-113 | repairs the record only in recovery, only when unreadable or its trial abandoned, keeps the invariant, and ends with the slots and the high-water mark that the flash at the start determines; which refusals there are, and none but for numbers that run out when there is no fault |
| OtaUpdate.DropCorrupt | SetAPIs_Calling/firmware/app/ota_update.c:117-121 | a corrupt confirmed image is dropped from the record only in recovery and only if it does not validate; in a safe state nothing happens; succeeds without faults |
| OtaUpdate.TargetUnconfirmed | SetAPIs_Calling/firmware/app/ota_update.c:117-122 | on a safe board the slot that an upload would go to is never the confirmed one, in recovery either |
| OtaUpdate.ChooseSlot | SetAPIs_Calling/firmware/app/ota_update.c:102-122 | each refusal comes exactly in its situation: no record, trial pending, nothing confirmed, generation not newer than the floor, target running; otherwise the slot is the one the flash at the start determines; only boot records change and the invariant is kept |
| OtaUpdate.FloorAboveHighWater | SetAPIs_Calling/firmware/app/ota_update.c:54-62 | the generation floor is at least the high-water mark of the record, whatever headers the slots hold |
| OtaUpdate.Ota.Begin | SetAPIs_Calling/firmware/app/ota_update.c:89-130 | the reply to every request: wrong board, bad header, repeated header, busy, or with no upload in the way exactly the refusal its situation calls for or the target slot; a failed repair or erase, impossible on faultless flash with sequence numbers left, is the only other reply; a repeat or refusal for those reasons changes nothing; only boot records and the header sector of the target change, never the confirmed or running slot; the never-bricked invariant is kept |
| OtaUpdate.Ota.StartUpload | SetAPIs_Calling/firmware/app/ota_update.c:102-129 | an upload starts if and only if no refusal applies and the flash does not fail, with the header sector of its target erased and the target different from the confirmed and the running slot; nothing but boot records and that sector changes |
| OtaUpdate.Ota.Append | SetAPIs_Calling/firmware/app/ota_update.c:131-155 | the reply to every chunk, stored, repeated, invalid or misplaced, and what the upload becomes; only a chunk at the end of the received bytes writes, inside the payload area of its slot alone; it is stored when there is no fault |
| OtaUpdate.AcknowledgedStored | SetAPIs_Calling/firmware/app/ota_update.c:131-155 | once acknowledged, a chunk stands at its offset in the received bytes, and nothing received before is lost |
| OtaUpdate.Ota.Extend | SetAPIs_Calling/firmware/app/ota_update.c:139-155 | the received bytes grow by exactly the chunk and stand in flash, or a fault ends the upload; nothing outside the payload area of the slot changes |
| OtaUpdate.UploadContained | SetAPIs_Calling/firmware/app/ota_update.c:122-205 | what an upload writes to its slot reaches neither the running nor the confirmed slot, stage 0, the factory image or the provisioned key |
| OtaUpdate.RecordWriteKeepsUpload | SetAPIs_Calling/firmware/app/ota_update.c:206-217 | writes to settings or boot records that leave the record in force leave an upload in progress valid |
| OtaUpdate.HashPayload | SetAPIs_Calling/firmware/app/ota_update.c:160-187 | the chunked loop delivers the CRC and the hash of the whole payload, or a fault |
| OtaUpdate.CommitHeader | SetAPIs_Calling/firmware/app/ota_update.c:192-200 | body first, magic last: the slot shows no readable header until it shows exactly the uploaded one; success means the image validates |
| OtaUpdate.Ota.VerifyPayload | SetAPIs_Calling/firmware/app/ota_update.c:156-205 | verified means length, CRC and hash all match the announced header; a mismatch or an incomplete upload leaves the flash alone; nothing but the header sector of the slot changes; a complete matching upload with valid vectors is verified when there is no fault |
| OtaUpdate.Ota.CommitUpload | SetAPIs_Calling/firmware/app/ota_update.c:188-205 | the header is committed over a matching payload inside its own sector; whatever is interrupted, a readable header is the uploaded one; success when there is no fault and the vectors are valid |
| OtaUpdate.ReceivingNotBootable | SetAPIs_Calling/firmware/app/ota_update.c:125-200 | while an upload is being received, its slot has no readable header |
| OtaUpdate.VerifiedMatches | SetAPIs_Calling/firmware/app/ota_update.c:188-201 | once verified, the slot's header is the uploaded one and the payload matches it |
| OtaUpdate.CommittedValidates | firmware/memory-platform/boot_state.c:29-35 | a committed header over a stored payload validates exactly when the vectors are valid and the CRC matches |
| OtaUpdate.Ota.Activate | SetAPIs_Calling/firmware/app/ota_update.c:206-217 | activation replaces the record by a legal activation of the verified slot and generation or leaves it, and changes nothing else; it is refused in any other state, and succeeds without faults when the record has not changed; a failure leaves the upload as it was |
| OtaUpdate.Ota.ReadStatus | SetAPIs_Calling/firmware/app/ota_update.c:63-88 | the status announces the current nonce and sequence and never resets them; every other field is that of the record, the boot information or the upload |
| OtaUpdate.Ota.Confirm | SetAPIs_Calling/firmware/app/ota_update.c:236-242 | confirmation needs the digest of the running image and a healthy board, is the only change of the record, and succeeds on faultless flash with sequence numbers left when the trial on record is running; which refusal each case gets |
| OtaUpdate.Ota.Dispatch | SetAPIs_Calling/firmware/app/ota_update.c:225-247 | what every route does to upload, payload and reply; routes that may not write leave the flash alone; an activation or confirmation that succeeds is in the record; reset times are 800 ms away; unknown routes are refused and change nothing |
| OtaUpdate.Ota.DispatchControl | SetAPIs_Calling/firmware/app/ota_update.c:233-247 | an abort empties the upload unless it is activated; confirm replaces the record by its confirmation or leaves it; recovery asks for a reset in 800 ms; any other route is refused and changes nothing |
| OtaUpdate.Ota.Handle | SetAPIs_Calling/firmware/app/ota_update.c:218-248 | nothing but an authentic POST changes the upload, the flash or the sequence number; an authentic one is routed and consumes one number; no request writes stage 0, the factory image, the key, the settings, the running slot or, on a safe board, the confirmed slot |
| OtaUpdate.Ota.Process | SetAPIs_Calling/firmware/app/ota_update.c:249-267 | an upload is dropped exactly after 60 seconds without a chunk; a system reset comes exactly when requested and due; the application is started exactly when an activation is due, or once from recovery after 20 seconds when the record names an image that validates and no upload is in the way |
| Board.TrialsBounded | firmware/bootloader/main.c:59-70 | an image is handed control at most MAX_TRIAL_ATTEMPTS times as a trial in any history, because each handoff follows its own committed increment |
| Board.SelectImage | firmware/bootloader/main.c:59-72 | selection keeps the invariant, never ends without an image in a safe state, and changes nothing but records |
| Board.Board.Boot | firmware/bootloader/main.c:59-76 | every boot keeps the never-bricked invariant and, unless power fails or the copy is corrupted, starts a slot that holds a valid image of the announced generation; a trial is started after its increment |
| Board.Board.HandOver | firmware/bootloader/main.c:66-76 | an image gets control exactly if it was selected, its copy can be trusted and power stayed on; a trial is recorded at its own committed attempt |
| Board.Board.StoreSettings | firmware/memory-platform/config_store.c:34-62 | a settings save on the same flash keeps the invariant, the upload in progress and everything but settings banks, at any failure |
| Board.Board.Step | SetAPIs_Calling/firmware/app/ota_update.c:218-267 | one event (request, tick, settings save or power cut) keeps the invariant and the bound on trials and never touches the running slot, the confirmed slot of a provisioned board, stage 0, the factory image, the key or, but for a save, the settings; an event from a stranger leaves upload, payload and sequence numbers alone |
| Board.Board.Run | SetAPIs_Calling/firmware/app/ota_update.c:89-217 | over every sequence of requests, ticks, settings saves, boots and power cuts at any flash operation, a provisioned board stays bootable, no generation is tried more than MAX_TRIAL_ATTEMPTS times, no byte is programmed twice, and stage 0, the factory image and the provisioned key are never written, nor anything else below the boot records unless settings are saved |
| HostImage.PackedHeaderValid | installer/image_format.py:35-41 | every packed image carries a header that the firmware's checks accept, followed by the payload |
| HostImage.UnpackPack | installer/image_format.py:44-54 | unpacking a packed image gives back its size, generation and hash |
| HostImage.UnpackAgrees | installer/image_format.py:44-54 | the host accepts an installed image if and only if the firmware would: its checks, the hash and the length |
| HostImage.PackedBoots | installer/image_format.py:35-41 | a packed image that is installed in a slot validates there and has its generation and hash |
| HostImage.MetaUnpackAgrees | installer/image_format.py:66-73 | the host decodes a record exactly when the firmware deems it valid, to the same record |
| HostImage.LatestAgrees | installer/image_format.py:76-80 | the host's choice by highest sequence is the firmware's if and only if two valid sequence numbers differ by less than half the range |
| HostImage.LatestDisagrees | installer/image_format.py:76-80 | records 1 and 0x90000000 in the two banks: the firmware boots by the first, the host reports the second |
| HostImage.HostSeesRecord | installer/image_format.py:76-80 | on every run from a provisioned state the host sees the record in force |
| HostImage.ProvisioningIsSafe | installer/image_format.py:57-63 | a packed image and a packed record establish the never-bricked invariant |
| Protocol.StepRouted | SetAPIs_Calling/firmware/app/ota_update.c:225-247 | whatever the client has learnt about an upload stays true when its own request is processed, even if the response is lost and the request is repeated |
| Protocol.Client.Http | installer/ethernet.py:32-43 | a request over a lossy link is processed at most once; without an authenticated response it may or may not have been; in between the board may meet strangers, ticks, settings saves, resets and power cuts |
| Protocol.Client.Challenge | installer/ethernet.py:45-60 | after a challenge the client holds a nonce and a usable sequence number, and agrees with the board unless it has reset |
| Protocol.SignedAuthentic | installer/ethernet.py:68-71 | the board accepts a signed body if and only if it expects its number and computes the same authenticator; with the same key and nonce the number alone decides |
| Protocol.Client.Attempt | installer/ethernet.py:65-80 | an authenticated answer means the board processed this request and replied so; on a lost one the nonce is dropped |
| Protocol.Client.Call | installer/ethernet.py:62-84 | up to three attempts: an answer or a refusal leaves client and board agreeing on the sequence number, and an answer tells the truth about the upload after the request was processed |
| Protocol.ClosedHolds | installer/ethernet.py:201 | once an upload is closed, the slot holds exactly the payload under its header whatever records change later |
| Protocol.Prepare | installer/ethernet.py:174-185 | after the status and the abort no upload is in progress |
| Protocol.Transfer | installer/ethernet.py:192-199 | the chunk loop, with losses and retries, stores exactly the payload |
| Protocol.Upload | installer/ethernet.py:187-201 | begin, chunks and finish past any losses leave the slot holding exactly the payload and its header |
| Protocol.Install | installer/ethernet.py:172-201 | if the installation gets past finish, the target slot holds exactly the payload under a header packed for it, and client and board still agree |
| ConfigStore.Load | firmware/memory-platform/config_store.c:26-33 | what is loaded is the stored pair, and fits the buffers |
| ConfigStore.EraseBank | firmware/memory-platform/config_store.c:47-50 | the bank written is erased from its first sector on, and loses its record, however far it gets |
| ConfigStore.WritePayload | firmware/memory-platform/config_store.c:51-57 | the page loop writes the payload into erased cells and leaves the header erased, without programming a byte twice |
| ConfigStore.CommitConfig | firmware/memory-platform/config_store.c:58-60 | body first, magic last: the bank holds the complete record if the commit word landed and no record otherwise, whatever is reported |
| ConfigStore.WriteRecord | firmware/memory-platform/config_store.c:47-61 | the bank holds the complete new record if the commit word landed, and loses its record or keeps it otherwise; success means a record that can be read |
| ConfigStore.CompleteConfig | firmware/memory-platform/config_store.c:10-20 | a complete bank reads as the pair written, if and only if both texts have two characters or more |
| ConfigStore.ShortTextUnread | firmware/memory-platform/config_store.c:10-20 | a pair with a text of one character, written in full, is not read |
| ConfigStore.SaveOutcome | firmware/memory-platform/config_store.c:34-62 | whichever way the writing ends, what loads afterwards is exactly the old pair or exactly the new one |
| ConfigStore.Save | firmware/memory-platform/config_store.c:34-62 | atomic at any cut: loading gives the new pair exactly if the commit word landed and the pair can be read, else the old pair; success means the new one; an unchanged pair writes nothing; only the inactive bank changes, no byte is programmed twice; without faults it succeeds exactly when the pair is admitted |
| ConfigStore.LandedUnreported | firmware/memory-platform/config_store.c:58-61 | on blank flash, the last program operation of a save may report failure with the whole commit word programmed; there the pair is in force although the save fails |
| ConfigStore.ConfigKeepsSafe | firmware/memory-platform/config_store.c:47-60 | saving settings keeps the never-bricked invariant of the update system |
| SettingsService.Service.constructor | SetAPIs_Calling/firmware/app/rj_api.c:260-277 | the stored pair is live after a start; with an empty store the defaults, and no instances |
| SettingsService.Service.Process | SetAPIs_Calling/firmware/app/rj_api.c:278-295 | a queued candidate goes live after two seconds, an unconfirmed one is rolled back to the settings after sixty, an unused one expires after fifteen minutes; nothing else changes |
| SettingsService.Service.PutCandidate | SetAPIs_Calling/firmware/app/rj_api.c:528-570 | a candidate is stored only against the current revision and tag, when valid and with nothing pending; otherwise nothing changes |
| SettingsService.Service.DeleteCandidate | SetAPIs_Calling/firmware/app/rj_api.c:530-548 | deletes exactly on a match with nothing pending |
| SettingsService.Service.ValidateCandidate | SetAPIs_Calling/firmware/app/rj_api.c:582-598 | judges exactly the current candidate |
| SettingsService.Service.Apply | SetAPIs_Calling/firmware/app/rj_api.c:599-634 | queues only the validated candidate of the named revision with nothing pending; a repeated key changes nothing |
| SettingsService.Service.Confirm | SetAPIs_Calling/firmware/app/rj_api.c:635-668 | persists exactly the applied candidate, only over the new address, and makes it the settings; a repeat after success changes nothing; a failed save leaves the candidate on its way to rollback |
| SettingsService.Service.SaveTexts | SetAPIs_Calling/firmware/app/rj_api.c:655-656 | after a failed save, store and texts agree if and only if they did before, or, when the commit word of a readable pair landed, if and only if that pair is the one in use; after a success they agree on the pair |
| SettingsService.AgreementLost | SetAPIs_Calling/firmware/app/rj_api.c:655-656 | at a concrete flash the commit word lands, failure is reported, and the store stops agreeing with every other pair in use |
| SettingsService.Service.PutInstances | SetAPIs_Calling/firmware/app/rj_api.c:470-502 | stores the instances against the current revision, with nothing pending, and only if they persist |
| SettingsService.Run | SetAPIs_Calling/firmware/app/rj_api.c:278-668 | over every sequence of calls and restarts the live settings are the candidate exactly while it awaits confirmation and the settings otherwise, no candidate is applied twice, and the store is empty or holds what is in use except after a save that landed for another pair and reported failure |
| SettingsService.RestartAfterSave | SetAPIs_Calling/firmware/app/rj_api.c:260-277 | after a save that was cut short or failed, a restart goes live with the new pair if and only if its commit word landed, else with the pair before, and store and texts agree again |
| LimbOps.Add | toolchain/crypto/mbedtls-3.6.5/library/bignum_core.c:406-423 | sum with carry out, exactly; the limbs above stay; operands may be the result |
| LimbOps.AddIf | toolchain/crypto/mbedtls-3.6.5/library/bignum_core.c:424-443 | conditional sum with carry out, exactly |
| LimbOps.Sub | toolchain/crypto/mbedtls-3.6.5/library/bignum_core.c:445-460 | difference with borrow out, exactly |
| LimbOps.LessThan | toolchain/crypto/mbedtls-3.6.5/library/bignum_core.c:133-167 | the branch-free comparison is the order of the values |
| LimbOps.CondAssign | toolchain/crypto/mbedtls-3.6.5/library/bignum_core.c:169-186 | all limbs or none |
| LimbOps.CondSwap | toolchain/crypto/mbedtls-3.6.5/library/bignum_core.c:188-202 | all limbs or none |
| LimbOps.ShiftRight | toolchain/crypto/mbedtls-3.6.5/library/bignum_core.c:331-369 | division by a power of two, for any count |
| LimbOps.ShiftLeft | toolchain/crypto/mbedtls-3.6.5/library/bignum_core.c:371-404 | multiplication by a power of two modulo the size, for any count |
| LimbOps.SubMod | toolchain/crypto/mbedtls-3.6.5/library/bignum_core.c:1027-1040 | the difference reduced modulo N |
| LimbOps.Div2ModOdd | toolchain/crypto/mbedtls-3.6.5/library/bignum_core.c:1042-1090 | the half modulo the odd N, carry folded back into the top bit |
| BinaryGcd.CommonKept | toolchain/crypto/mbedtls-3.6.5/library/bignum_core.c:1165-1195 | an iteration keeps the common divisors exactly |
| BinaryGcd.StepLowers | toolchain/crypto/mbedtls-3.6.5/library/bignum_core.c:1165-1195 | an iteration lowers the potential by one, in each of the three shapes that a pair can have |
| BinaryGcd.StepsReachGcd | toolchain/crypto/mbedtls-3.6.5/library/bignum_core.c:1092-1238 | as many iterations as both numbers have bits together end with 0 and the greatest common divisor |
| BinaryGcd.MultipleSub | toolchain/crypto/mbedtls-3.6.5/library/bignum_core.c:1217-1221 | subtracting the mirrored pair keeps the congruence |
| BinaryGcd.MultipleHalf | toolchain/crypto/mbedtls-3.6.5/library/bignum_core.c:1042-1090 | halving modulo the odd N keeps the congruence |
| BinaryGcd.InverseMeansCoprime | toolchain/crypto/mbedtls-3.6.5/library/bignum_core.c:1092-1238 | an invertible number has no common divisor with the modulus but 1 |
| GcdModInv.UpdatePair | toolchain/crypto/mbedtls-3.6.5/library/bignum_core.c:1165-1195 | the branch-free updates of u and v are one mathematical step |
| GcdModInv.MirrorPair | toolchain/crypto/mbedtls-3.6.5/library/bignum_core.c:1215-1234 | r and q stay below N and mirror that step modulo N |
| GcdModInv.EnoughIterations | toolchain/crypto/mbedtls-3.6.5/library/bignum_core.c:1162-1165 | the fixed iteration count covers every input of the sizes given |
| GcdModInv.GcdModInvOdd | toolchain/crypto/mbedtls-3.6.5/library/bignum_core.c:1092-1238 | the fixed loop ends with the greatest common divisor, and A times I congruent to it modulo N, for every odd N and A at most N, outputs aliasing A allowed |
| Montgomery.Newton | toolchain/crypto/mbedtls-3.6.5/library/bignum_core.c:514-525 | one Newton round doubles the number of correct bits |
| Montgomery.MontMulInit | toolchain/crypto/mbedtls-3.6.5/library/bignum_core.c:514-525 | the result is minus the inverse of the low limb, for 32-bit and 64-bit limbs |
| Montgomery.Mla | toolchain/crypto/mbedtls-3.6.5/library/bignum_core.c:462-498 | multiply and accumulate with carry out, exactly, over unequal lengths |
| Montgomery.MontStep | toolchain/crypto/mbedtls-3.6.5/library/bignum_core.c:538-547 | one iteration adds multiples that make the low limb vanish, and its carries stay inside the scratch |
| Montgomery.CarryAndBorrow | toolchain/crypto/mbedtls-3.6.5/library/bignum_core.c:559-580 | carry 1 without borrow never occurs, so comparing the two decides the final subtraction |
| Montgomery.MontMul | toolchain/crypto/mbedtls-3.6.5/library/bignum_core.c:527-581 | the product divided by R modulo N, reduced below N, for every odd N, A any and B at most N |
| ExpMod.CountLeadingZeros | toolchain/crypto/mbedtls-3.6.5/library/bignum_core.c:25-52 | counts exactly |
| ExpMod.BitLen | toolchain/crypto/mbedtls-3.6.5/library/bignum_core.c:54-67 | the number of significant bits of the value |
| ExpMod.MontProduct | toolchain/crypto/mbedtls-3.6.5/library/bignum_core.c:527-581 | a Montgomery product of two Montgomery forms is the form of the product |
| ExpMod.NextBit | toolchain/crypto/mbedtls-3.6.5/library/bignum_core.c:908-918 | reading one more bit doubles the prefix and adds the bit |
| ExpMod.FirstBit | toolchain/crypto/mbedtls-3.6.5/library/bignum_core.c:762-802 | where the loop starts, public or secret, no bit of the exponent lies above |
| ExpMod.RegionsFit | toolchain/crypto/mbedtls-3.6.5/library/bignum_core.c:710-721 | table, selection and scratch together fit the working limbs for every start position |
| ExpMod.PrecomputeWindow | toolchain/crypto/mbedtls-3.6.5/library/bignum_core.c:723-748 | the table holds the Montgomery forms of all powers up to the window |
| ExpMod.Lookup | toolchain/crypto/mbedtls-3.6.5/library/bignum_core.c:809-833 | the entry selected, by address or by scanning the table, is the one asked for |
| ExpMod.ProcessBit | toolchain/crypto/mbedtls-3.6.5/library/bignum_core.c:904-933 | one bit keeps the accumulator at the power of the processed prefix without the pending window |
| ExpMod.ProcessBits | toolchain/crypto/mbedtls-3.6.5/library/bignum_core.c:904-933 | after all bits it is the whole power in Montgomery form |
| ExpMod.ExpModCore | toolchain/crypto/mbedtls-3.6.5/library/bignum_core.c:850-934 | windowed exponentiation computes A^E in Montgomery form within the working limbs, for public and secret exponents |
| ExpMod.ExpModReduced | toolchain/crypto/mbedtls-3.6.5/library/bignum.c:1702-1714 | conversion in, exponentiation and conversion out give A^E mod N |
| MultiPrecision.Mpi.Grow | toolchain/crypto/mbedtls-3.6.5/library/bignum.c:209-233 | the number keeps its value |
| MultiPrecision.Mpi.Assign | toolchain/crypto/mbedtls-3.6.5/library/bignum.c:307-344 | the copy has the value, shrinking nothing |
| MultiPrecision.Mpi.Set | toolchain/crypto/mbedtls-3.6.5/library/bignum.c:377-390 | the value set, for every machine integer |
| MultiPrecision.Mpi.ShiftL | toolchain/crypto/mbedtls-3.6.5/library/bignum.c:866-886 | times a power of two without loss, growing as needed |
| MultiPrecision.Mpi.ShiftR | toolchain/crypto/mbedtls-3.6.5/library/bignum.c:888-894 | divided by a power of two |
| MultiPrecision.Mpi.CompareAbs | toolchain/crypto/mbedtls-3.6.5/library/bignum.c:899-935 | the order of the magnitudes |
| MultiPrecision.Mpi.Compare | toolchain/crypto/mbedtls-3.6.5/library/bignum.c:940-984 | the order of the signed values, two zeros of different sign being equal |
| MultiPrecision.Mpi.CompareInt | toolchain/crypto/mbedtls-3.6.5/library/bignum.c:989-1000 | the order against a machine integer |
| MultiPrecision.Mpi.AddAbs | toolchain/crypto/mbedtls-3.6.5/library/bignum.c:1005-1061 | the sum of the magnitudes, result aliasing either operand |
| MultiPrecision.Mpi.SubAbs | toolchain/crypto/mbedtls-3.6.5/library/bignum.c:1066-1112 | the difference of the magnitudes, refused exactly when it would be negative |
| MultiPrecision.SubInt | toolchain/crypto/mbedtls-3.6.5/library/bignum_core.c:972-985 | a borrow taken from the limbs above |
| MultiPrecision.Mpi.AddSub | toolchain/crypto/mbedtls-3.6.5/library/bignum.c:1117-1161 | signed sum and difference for all signs and aliasings |
| MultiPrecision.Mpi.MulInt | toolchain/crypto/mbedtls-3.6.5/library/bignum.c:1258-1290 | signed product with a limb, in place too |
| Division.DivideWord | toolchain/crypto/mbedtls-3.6.5/library/bignum.c:1295-1330 | the two-limb quotient, saturated when it does not fit |
| Division.ThreeLimbTest | toolchain/crypto/mbedtls-3.6.5/library/bignum.c:1468-1480 | the true digit passes the three-limb test, and whatever passes is at most one above it |
| Division.EstimateDigit | toolchain/crypto/mbedtls-3.6.5/library/bignum.c:1461-1480 | the estimate is the true digit or one more |
| Division.SubtractDigit | toolchain/crypto/mbedtls-3.6.5/library/bignum.c:1482-1491 | one add-back at most corrects the digit, and the remainder is back in range |
| Division.DivideDigits | toolchain/crypto/mbedtls-3.6.5/library/bignum.c:1460-1492 | the digits found make up the quotient and the rest is below the divisor |
| Division.Normalized | toolchain/crypto/mbedtls-3.6.5/library/bignum.c:1441-1448 | the shift puts the divisor's top limb at half its range, one bit below full |
| Division.LeadingDigit | toolchain/crypto/mbedtls-3.6.5/library/bignum.c:1450-1458 | the repeated subtraction finds the leading digit |
| Division.TruncatedUnique | toolchain/crypto/mbedtls-3.6.5/library/bignum.c:1398-1516 | quotient and remainder of truncated division are unique |
| Division.Divide | toolchain/crypto/mbedtls-3.6.5/library/bignum.c:1398-1516 | A = Q*B + R with R smaller than B and signed like A or zero, fails exactly for B = 0; which values come out for every aliasing of quotient and remainder with the operands |
| Division.QuotientExact | toolchain/crypto/mbedtls-3.6.5/library/bignum.c:1423-1497 | the quotient is right if and only if the dividend is smaller, or it overwrites both operands at once, or each operand it overwrites is positive |
| Division.RemainderExact | toolchain/crypto/mbedtls-3.6.5/library/bignum.c:1423-1507 | the remainder is right if and only if the quotient does not overwrite the dividend, or it is zero, or the sign read afterwards happens to be the dividend's |
| Division.AliasedDivisionWrong | toolchain/crypto/mbedtls-3.6.5/library/bignum.c:1423-1507 | dividing -7 by 3 with the quotient in the place of -7 gives 2 and 1 instead of -2 and -1 |
| Division.Modulo | toolchain/crypto/mbedtls-3.6.5/library/bignum.c:1539-1560 | the remainder that is not negative, fails exactly for B not positive, with the result in the place of A too; in the place of B only where the call returns, which it does not for a positive B |
| Division.RaiseRemainder | toolchain/crypto/mbedtls-3.6.5/library/bignum.c:1549-1551 | the first loop ends with a congruent number that is not negative |
| Division.LowerRemainder | toolchain/crypto/mbedtls-3.6.5/library/bignum.c:1553-1555 | the second ends with the congruent number below B |
| SmallModulus.ModLimbsExact | toolchain/crypto/mbedtls-3.6.5/library/bignum.c:1594-1604 | the half-limb loop computes the remainder for every divisor up to 2^16 and every divisor of 2^32 |
| SmallModulus.ModLimbsWrong | toolchain/crypto/mbedtls-3.6.5/library/bignum.c:1594-1604 | for any other divisor one concrete number comes out wrong |
| SmallModulus.ExactDivisors | toolchain/crypto/mbedtls-3.6.5/library/bignum.c:1594-1604 | the loop is right for all numbers if and only if the divisor is at most 2^16 or divides 2^32 |
| SmallModulus.ModInt | toolchain/crypto/mbedtls-3.6.5/library/bignum.c:1565-1617 | fails exactly for a divisor that is not positive; the reduced signed value for the exact divisors |
| SignedExpMod.OutcomeReduced | toolchain/crypto/mbedtls-3.6.5/library/bignum.c:1719-1724 | for an exponent with limbs the result is the reduced power if and only if the base is not negative, or the exponent even, or the base is overwritten exactly when its power is a multiple of N |
| SignedExpMod.ResultExact | toolchain/crypto/mbedtls-3.6.5/library/bignum.c:1652-1724 | exactly when the result is the reduced power, the exponent without limbs included, which fails for N = 1 alone |
| SignedExpMod.WrongResults | toolchain/crypto/mbedtls-3.6.5/library/bignum.c:1652-1724 | a failing input for each of the three cases |
| SignedExpMod.DocumentedRadix | toolchain/crypto/mbedtls-3.6.5/library/bignum_core.c:844 | the documented residue for RR serves as the square of R if and only if N divides the base to the power 2n-2, minus 1, where n is the number of limbs |
| SignedExpMod.TwoLimbRadix | toolchain/crypto/mbedtls-3.6.5/library/bignum_core.c:844 | so it does for one limb, and not for the two limbs of 2^32 + 3 |
| SignedExpMod.MontR2 | toolchain/crypto/mbedtls-3.6.5/library/bignum_core.c:583-596 | the square of R reduced modulo N |
| SignedExpMod.Exponentiate | toolchain/crypto/mbedtls-3.6.5/library/bignum.c:1623-1735 | which operands are refused and what comes out for all others, signs, empty and zero exponents and X aliasing A included; and that this is the reduced power exactly under the condition of ResultExact |
| NumberText.DigitsFit | toolchain/crypto/mbedtls-3.6.5/library/bignum.c:632-649 | the computed length bound has room for the digits of every number in every radix below 16 |
| NumberText.WriteDigits | toolchain/crypto/mbedtls-3.6.5/library/bignum.c:582-615 | the digits written denote the number, the most significant first |
| NumberText.WriteHex | toolchain/crypto/mbedtls-3.6.5/library/bignum.c:664-680 | the nibbles written denote the number, in whole bytes without a leading zero byte, except 00 for a zero that has limbs |
| NumberText.WriteString | toolchain/crypto/mbedtls-3.6.5/library/bignum.c:620-699 | refuses exactly the bad radices and short buffers; otherwise the text denotes the signed number and fits with its terminator |
| NumberText.ReadString | toolchain/crypto/mbedtls-3.6.5/library/bignum.c:518-577 | accepts exactly the readable texts and gives the number denoted |
| NumberText.RoundTrip | toolchain/crypto/mbedtls-3.6.5/library/bignum.c:518-699 | writing and reading back gives the number, for every number and radix 2 to 16 |
| ModularInverse.CoreMul | toolchain/crypto/mbedtls-3.6.5/library/bignum_core.c:500-508 | the rows add up to the product, and no row carries out of its limbs |
| ModularInverse.Multiply | toolchain/crypto/mbedtls-3.6.5/library/bignum.c:1198-1253 | the signed product, result aliasing one or both factors |
| ModularInverse.CountTrailingZeros | toolchain/crypto/mbedtls-3.6.5/library/bignum.c:444-456 | counts exactly, all bits for 0 |
| ModularInverse.LowestBit | toolchain/crypto/mbedtls-3.6.5/library/bignum.c:462-473 | what is left of the number above that bit is odd |
| ModularInverse.GcdAndInverse | toolchain/crypto/mbedtls-3.6.5/library/bignum.c:1752-1819 | refused, unchanged, exactly where the operands or the aliasing are not allowed; otherwise divisor and inverse as in the core function |
| ModularInverse.GcdScaled | toolchain/crypto/mbedtls-3.6.5/library/bignum.c:1852-1866 | the powers of two put aside come back as the smaller one |
| ModularInverse.Gcd | toolchain/crypto/mbedtls-3.6.5/library/bignum.c:1825-1873 | the greatest common divisor of any two signed numbers, 0 for two zeros, result aliasing an operand |
| ModularInverse.FoundInverse | toolchain/crypto/mbedtls-3.6.5/library/bignum.c:1937-1944 | divisor 1 means an inverse was found, any other that none exists |
| ModularInverse.OtherHalf | toolchain/crypto/mbedtls-3.6.5/library/bignum.c:1984-1997 | from one half of a Bezout relation the other half is an inverse modulo the even number, already in range |
| ModularInverse.InvModOdd | toolchain/crypto/mbedtls-3.6.5/library/bignum.c:1927-1950 | the inverse in range, or not acceptable exactly when there is none |
| ModularInverse.InvModEvenInRange | toolchain/crypto/mbedtls-3.6.5/library/bignum.c:1966-2000 | the same for an even modulus, from the inverse of the modulus |
| ModularInverse.InvModEven | toolchain/crypto/mbedtls-3.6.5/library/bignum.c:2006-2035 | the same for every odd number, reduced first |
| ModularInverse.InvMod | toolchain/crypto/mbedtls-3.6.5/library/bignum.c:2042-2058 | for all signed numbers: bad input exactly for a modulus up to 1, not acceptable exactly when no inverse exists, otherwise the inverse between 1 and the modulus; X may be A or N |
| JsonText.CheckUtf8 | SetAPIs_Calling/firmware/app/rj_json.c:25-53 | accepts exactly well-formed UTF-8 (section 4 of RFC 3629): no overlong form, no surrogate, nothing above 10FFFF |
| JsonText.ReadContinuations | SetAPIs_Calling/firmware/app/rj_json.c:44-48 | the continuation bytes are all there, and extend the bits of the first byte, exactly if the loop ends |
| JsonText.ScanSound | SetAPIs_Calling/firmware/app/rj_json.c:175-193 | the scan of a string ends at its closing quote, over characters allowed by section 7 of RFC 8259 |
| JsonText.ScanComplete | SetAPIs_Calling/firmware/app/rj_json.c:175-193 | and finds the end of every such string |
| JsonText.ScanString | SetAPIs_Calling/firmware/app/rj_json.c:175-193 | the loop is that scan |
| JsonText.NextUnit | SetAPIs_Calling/firmware/app/rj_json.c:54-125 | one character, escape or surrogate pair is decoded to its bytes, or the string has no meaning |
| JsonText.UnicodeUnit | SetAPIs_Calling/firmware/app/rj_json.c:63-107 | a hexadecimal escape or a surrogate pair is decoded to its bytes, or the string has no meaning |
| JsonText.DecodeInto | SetAPIs_Calling/firmware/app/rj_json.c:54-125 | decodes exactly the strings with a meaning that fit the buffer, terminator included, and writes nothing beyond it |
| JsonText.QuotedDecodes | SetAPIs_Calling/firmware/app/rj_json.c:450-475 | quoting and decoding give every NUL-free string back |
| JsonText.QuoteInto | SetAPIs_Calling/firmware/app/rj_json.c:450-475 | fails exactly when the quoted text and its terminator do not fit |
| JsonText.QuotedUtf8 | SetAPIs_Calling/firmware/app/rj_json.c:450-475 | quoting keeps well-formed UTF-8 |
| JsonGrammar.NumberSound | SetAPIs_Calling/firmware/app/rj_json.c:209-237 | what the number scanner consumes is a number of section 6 of RFC 8259 |
| JsonGrammar.NumberComplete | SetAPIs_Calling/firmware/app/rj_json.c:209-237 | and it consumes every such number that nothing continues |
| JsonExact.ValueSound | SetAPIs_Calling/firmware/app/rj_json.c:126-244 | what is parsed stands in the text as the grammar spells it, within the limits |
| JsonExact.ValueComplete | SetAPIs_Calling/firmware/app/rj_json.c:126-244 | what the grammar spells within the limits is parsed |
| JsonExact.ParseExact | SetAPIs_Calling/firmware/app/rj_json.c:245-255 | parsing gives a value if and only if the text is a document for it: UTF-8, sections 2 to 7 of RFC 8259, and the limits on depth, numbers, keys and strings |
| JsonTokens.ItemsWalk | SetAPIs_Calling/firmware/app/rj_json.c:239-240 | stepping along a list's items visits each once and ends where the list ends |
| JsonTokens.MembersWalk | SetAPIs_Calling/firmware/app/rj_json.c:152-155 | stepping from key to value to key ends where the object ends |
| JsonTokens.ChildrenEndAtNext | SetAPIs_Calling/firmware/app/rj_json.c:239-240 | the walk over the children of a list or object ends exactly at its own link |
| JsonTokens.EveryToken | SetAPIs_Calling/firmware/app/rj_json.c:126-244 | every token of the array is the root of a value that ends within its parent |
| JsonParser.Json.ScanNumber | SetAPIs_Calling/firmware/app/rj_json.c:209-237 | the loops are the number scanner |
| JsonParser.Json.StringOf | SetAPIs_Calling/firmware/app/rj_json.c:54-125 | for every index: the meaning of a string token, if it is one and fits, else nothing |
| JsonParser.Json.ParseScalarAt | SetAPIs_Calling/firmware/app/rj_json.c:172-243 | strings, words and numbers fill their token as the parser function says |
| JsonParser.Json.Repeated | SetAPIs_Calling/firmware/app/rj_json.c:152-155 | the walk over the keys finds exactly the repeated ones |
| JsonParser.Json.ListValue | SetAPIs_Calling/firmware/app/rj_json.c:137-171 | the loop over items is the parser function, token by token |
| JsonParser.Json.DictValue | SetAPIs_Calling/firmware/app/rj_json.c:137-171 | the loop over members is the parser function, token by token |
| JsonParser.Json.Value | SetAPIs_Calling/firmware/app/rj_json.c:126-244 | succeeds exactly when the parser function does and the tokens fit, fills exactly its tokens and leaves the earlier ones |
| JsonParser.Json.Parse | SetAPIs_Calling/firmware/app/rj_json.c:245-255 | succeeds exactly on the documents that fit the token array, and leaves their preorder |
| JsonParser.QuotedDocument | SetAPIs_Calling/firmware/app/rj_json.c:450-475 | a quoted string is a document of one string token with the original meaning |
| JsonParser.QuoteRoundTrip | SetAPIs_Calling/firmware/app/rj_json.c:450-475 | quoting, parsing and decoding return the original string |
| JsonLookup.Equals | SetAPIs_Calling/firmware/app/rj_json.c:256-259 | for every index: equality with the decoded meaning, false for what is no string token |
| JsonLookup.NamedOnce | SetAPIs_Calling/firmware/app/rj_json.c:152-155 | at most one member of a parsed object has a given name |
| JsonLookup.Get | SetAPIs_Calling/firmware/app/rj_json.c:260-267 | finds the value of the member with that name, -1 exactly when there is none, and the value found can be searched in turn |
| JsonLookup.Find | SetAPIs_Calling/firmware/app/rj_json.c:245-267 | parsing a text and looking a name up finds the value of that member of the document, -1 exactly if the text is no document that fits or has no such member |

## Left out

- Hardware: QSPI registers, clocks, memory protection, the SDRAM test, the watchdog, interrupt masking, the jump.
- The network stack, HTTP framing, discovery, DHCP and the formatting of status and error texts.
- SHA-256, HMAC and the random generator: uninterpreted functions, or values given as parameters.
- Board.Board.Boot: whether the copy in SDRAM is faithful is a parameter; the CRC check on it is the branch taken then.
- BoardMemory.Nor.EraseSector: a torn erase is constrained by the assumption `TornErase` and not derived from the cells.
- Protocol.Install: ends after finish; activation, reconnection and the runtime proof of the new image are not modelled.
- Protocol.Client.Http: responses too long or not well-formed are losses or rejections without a cause.
- OtaUpdate.Ota.Process: timers wrap as the code's do, and the recovery window is part of one class with the application.
- Board.Board.StoreSettings: of the settings service only the saves are events of the board's runs; its own runs are
  SettingsService.Run, where requests to the update service are not calls.
- SettingsService.Service.PutCandidate: `settings_valid` is an uninterpreted predicate that refuses the empty text;
  request bodies come decoded, and revisions in them are compared as integers, not as doubles.
- SettingsService.Service.PutInstances: `validate_instances` is an uninterpreted predicate on the text.
- SettingsService.Service.Confirm: whether the request came over the new address is a parameter.
- The front end of `rj_api_handle`: authorization, methods, query strings, and the read-only routes.
- JsonParser.Json.Parse: whether the double of a number is finite is a predicate on its text; `rj_number` is not modelled.
- `rj_raw`, `rj_ipv4` and `rj_validate`: copying of a range, and walks over a catalogue of schemas.
- Limbs of 32 bits throughout; both widths only for Montgomery.MontMulInit. The half-word variant of `int_div_int`, for
  platforms without a double-width division, is not modelled.
- ExpMod.ExpModCore: the regions of the scratch area are separate arrays; that they fit it is ExpMod.RegionsFit.
- GcdModInv.GcdModInvOdd: the regions of the scratch area are separate arrays.
- Division.Modulo: the result in the place of a positive divisor is excluded, since the source then adds the number to
  itself, or takes it from itself, without end.
- SignedExpMod.Exponentiate: RR is computed on every call; the cache that a caller may pass is not modelled.
- Allocation failure and MAX_LIMBS, zeroisation, constant-time behaviour, binary import and export, primes.
- `mbedtls_mpi_div_int`, `mbedtls_mpi_add_int`, `mbedtls_mpi_sub_int`: wrappers around members that are modelled.
- AES, ARIA, CCM, base64, ASN.1, the bignum_mod files, the schema catalogue, installer UI and build scripts.
