# ESP32-S2 USB device: mass-storage update path, ring buffer, string descriptors

This project models three sequential parts of an ESP32-S2 USB device firmware
and proves properties of the models.

- **Mass-storage block translator and update trigger** (`msc_task.dfy`, with
  `fat_image.dfy` and `partition.dfy`).
  - The device shows the host a disk. Blocks 0-49 come from a RAM copy of a 50-block FAT12 image.
  - At startup the image's BPB_TotSec16 field is patched with the partition's block count.
  - Blocks from 50 up are read from a flash partition.
  - Writes go to the RAM disk until one arrives whose first byte is the ESP image magic `0xE9`.
  - That write switches the device into update mode for good. It records the block and the tick count, and it erases the whole partition.
  - From then on, every write at or above the recorded block is programmed at a running byte cursor. Writes below it are dropped.
  - Were `ticker_task` running, a poll would restart the device once more than 1000 ticks have passed since `old_millis`, which is 0 until the trigger. Nothing in the firmware starts that task.
  - The flash partition is an abstract object: its size, its boot content and the log of erase and write calls made on it. Its content is the replay of that log. This lets ordering facts be stated, such as "erased once, before any program".
  - The functions on `State` (`Write10Spec`, `Read10Spec`, ...) are the specification. The class `MscDevice` holds the globals as fields and is proved against those functions.
- **Ring buffer** (`ring_buffer.dfy`).
  - `ring_buffer_t` is a class over an `array`, with the source's `wp`, `rp` and `data_cnt` fields.
  - Writes and reads that cross the end of the buffer are split into two copies.
  - The stored bytes (`Contents`) are `data_cnt` bytes read from `rp` on, wrapping at the end.
- **String-descriptor encoder and the active-descriptor table** (`descriptors_control.dfy`).
  - A string descriptor, as in section 9.6.7 of the USB 2.0 specification, is a header word followed by the ASCII bytes of a C string, each widened to a 16-bit code unit. At most 31 characters fit.
  - The set, get and clear operations work on the stack's stored device descriptor and string table.

`common.dfy` holds the machine integer types, `Option`, and the C conversion of a `uint32_t` to `int32_t`.

## Model

| member | source | states |
|---|---|---|
| Common.Int32 | main/msc_task.c:268 | returning a `uint32_t` as `int32_t`: the same bits read as two's complement; values below 2^31 are unchanged and larger ones become negative |
| FatImage.BootSector | main/msc_task.c:52-89 | block 0 is 512 bytes; it starts with the 64-byte BPB header, has 512 bytes per sector at offsets 11-12, and ends with the 0x55 0xAA signature at 510-511 |
| FatImage.RootDirectory | main/msc_task.c:97-105 | block 2 is 512 bytes. Bytes 0-11 are the volume-label entry: the name `ESP32S2 MSC` and attribute 0x08. Bytes 32-63 are the README.TXT entry: the name, attribute 0x20, first cluster 2 and a little-endian size field equal to the length of the README text. The rest is zeros |
| FatImage.ReadmeBlock | main/msc_task.c:28-31 | block 3 is 512 bytes: the README text, followed by zeros up to the end of the block |
| FatImage.Template | main/msc_task.c:42-108 | the template is 25600 bytes; its first block is the boot sector and bytes 510-511 hold the signature |
| FatImage.BlockCount | main/msc_task.c:131-132 | the block count is the largest `r` with `r * 512 <= size` |
| FatImage.Patched | main/msc_task.c:127-132 | after startup the RAM disk is the template byte for byte, except that byte 19 holds `(size/512) & 0xFF` and byte 20 holds `((size/512) >> 8) & 0xFF`; the signature at 510-511 is kept |
| FatImage.LowBytes | main/msc_task.c:131-132 | the two `uint8_t` truncations, read back little-endian, are the count modulo 2^16 |
| FatImage.PatchedTotSec16 | main/msc_task.c:131-132 | BPB_TotSec16 of the patched disk reads back as the block count modulo 2^16, and as the block count itself when that is below 65536 |
| Partition.Erased | main/msc_task.c:285 | an erased run of `n` bytes is `n` bytes of 0xFF |
| Partition.EraseRange | main/msc_task.c:285 | the erase is appended to the log; size and boot content are kept; the result says whether the range was accepted |
| Partition.EraseRangeContent | main/msc_task.c:285 | an accepted erase sets exactly its range to 0xFF; every other byte, and every byte after a refused erase, keeps its value |
| Partition.Write | main/msc_task.c:300 | the write is appended to the log; the result says whether the range was accepted |
| Partition.WriteContent | main/msc_task.c:300 | an accepted write stores its data at the offset; every other byte, and every byte after a refused write, keeps its value |
| Partition.Read | main/msc_task.c:264 | the read succeeds exactly when the range is inside the partition, and then returns the content at that range |
| Partition.ReplayAppend | main/msc_task.c:285-300 | replaying two logs one after the other is replaying their concatenation |
| Partition.ErasedWhole | main/msc_task.c:285 | a whole-partition erase leaves all 0xFF when the size is a whole number of 4096-byte sectors; otherwise the service refuses it and every byte is kept |
| Partition.ReplayAfterFullErase | main/msc_task.c:285 | the calls after a whole-partition erase act on what that erase left; for a size of whole sectors, the content no longer depends on what the partition held before |
| Common.ConcatLength | main/msc_task.c:300-301 | the concatenated payloads are as long as the sum of their lengths |
| MscTask.DiskAddr | main/msc_task.c:259 | below block 50, the 32-bit product `lba * 512` never wraps, so the RAM-disk index is exactly `lba * 512 + offset` |
| MscTask.FlashAddr | main/msc_task.c:264 | the partition address of a read is 512 bytes below `lba * 512 + offset`, modulo 2^32 |
| MscTask.MscDevice.Boot | main/msc_task.c:127-132 | the RAM disk is a fresh 25600-byte array holding `Patched(size)`, and the globals are `BootState(partition)` |
| MscTask.BootState | main/msc_task.c:19-23 | the globals after startup satisfy the invariant: not in update mode, untouched partition, and the patched RAM disk |
| MscTask.ReportedCapacity | main/msc_task.c:221-222 | the capacity is the partition size in 512-byte blocks, rounded down, with block size 512, whatever the template's 50 blocks |
| MscTask.MscDevice.Capacity | main/msc_task.c:209-224 | the callback reports `ReportedCapacity` of its globals |
| MscTask.Read10Spec | main/msc_task.c:257-265 | the host buffer after a read is as long as the request |
| MscTask.MscDevice.Read10 | main/msc_task.c:252-269 | below block 50 the bytes come from `msc_disk[lba*512 + offset ..]`; otherwise from partition address `lba*512 + offset - 512`, both computed in 32 bits; a refused partition read leaves the buffer as it was; the value returned is always `bufsize` |
| MscTask.Write10Spec | main/msc_task.c:273-306 | every write returns `bufsize`; update mode is on afterwards exactly when it was on before or the first byte is 0xE9; the partition's size and boot content are kept |
| MscTask.Write10Effects | main/msc_task.c:279-305 | the trigger records the block and the tick count and logs one full erase followed by the triggering buffer at the cursor. Outside update mode only the RAM disk range changes. In update mode the RAM disk is never written. A write below the start block changes nothing. Any other write is logged at the cursor, and the cursor advances by its length modulo 2^32 |
| MscTask.MscDevice.Write10 | main/msc_task.c:273-306 | the callback leaves exactly the globals `Write10Spec` describes, returns its value, and keeps the invariant |
| MscTask.UpdateModeKeeps | main/msc_task.c:288-302 | once in update mode, a write leaves the start block, the restart stamp and the RAM disk unchanged |
| MscTask.LogStep | main/msc_task.c:300-301 | one more write at the cursor keeps the writes sequential and adds one payload; the advanced cursor is the new total length modulo 2^32 |
| MscTask.ProgramKeepsInv | main/msc_task.c:300-301 | programming at the cursor keeps the invariant and appends the buffer to the programmed payloads |
| MscTask.TriggerKeepsInv | main/msc_task.c:279-287 | after the trigger the log is the single full erase, nothing is programmed, and the cursor is 0 |
| MscTask.Write10KeepsInv | main/msc_task.c:273-306 | every write keeps the invariant; the programmed payloads grow by the buffer exactly when the write is programmed |
| MscTask.SequentialImage | main/msc_task.c:285-301 | replaying sequential writes that fit onto any content gives the payloads back to back from address 0, followed by what that content held past them |
| MscTask.ContiguousImage | main/msc_task.c:285-301 | during an update whose payloads fit, the partition holds them contiguously from address 0 in arrival order, whatever their block numbers. Past them the partition is erased when its size is whole sectors. Otherwise the ignored erase was refused, and past them the partition keeps its boot content |
| MscTask.DiskRoundTrip | main/msc_task.c:257-292 | before an update, a write without the magic byte below block 50 goes to the RAM disk, and reading the same range back returns exactly those bytes |
| MscTask.ReadBackImage | main/msc_task.c:264-301 | during an update, a read at or above block 50 inside the programmed range returns the image bytes streamed there |
| MscTask.StepFacts | main/msc_task.c:273-306 | one write from a state satisfying the invariant: the invariant holds after it, the accepted payloads grow as `Programs` says, and update mode keeps its fields |
| MscTask.RunAccounting | main/msc_task.c:273-306 | over any run of writes the invariant holds; the programmed payloads are exactly the accepted buffers in order; once in update mode the start block, the restart stamp and the RAM disk stay as they were |
| MscTask.UpdateFromBoot | main/msc_task.c:279-305 | from boot, over any run of writes: either no update has started and the partition was never touched, or the log is one full erase followed by the accepted buffers written back to back. The cursor is their total length modulo 2^32. When they fit, the partition holds them contiguously |
| MscTask.RestartDue | main/msc_task.c:168 | the restart fires exactly when the unsigned 32-bit difference of the tick count and the stamp is strictly greater than 1000 |
| MscTask.MscDevice.TickerPoll | main/msc_task.c:164-179 | one poll decides `RestartDue` of the current tick count and the stamp |
| MscTask.RestartMeasuresFromTrigger | main/msc_task.c:279-287 | after the trigger, later writes do not re-arm the restart: it still measures from the trigger's tick count |
| MscTask.ScsiCallbackAsWritten | main/msc_task.c:311-355 | as written: PREVENT ALLOW MEDIUM REMOVAL returns 0 with no sense. Any other opcode sets sense ILLEGAL REQUEST / 0x20 / 0x00 and returns `bufsize`, because the `uint16_t` holding -1 is clamped |
| MscTask.UnsupportedCommandLooksSuccessful | main/msc_task.c:317-340 | as written, READ BUFFER (10) with a 512-byte buffer returns 512 and SYNCHRONIZE CACHE (10) with no data returns 0, each with the error sense set; the corrected callback returns -1 for both |
| MscTask.RestartWithoutUpdate | main/msc_task.c:164-168 | from boot, with no update started, a poll at tick 1001 would restart the device and one at tick 1000 would not, since the stamp is still 0 |
| MscTask.ScsiCallback | main/msc_task.c:329-340 | as the comments intend: an unsupported opcode returns -1 with the same sense; the result never exceeds `bufsize` |
| RingBuffers.Wrap | main/ring_buffer.c:61-65 | advancing an index by at most the capacity with one conditional subtraction stays below the capacity |
| RingBuffers.WrapIsMod | main/ring_buffer.c:61-65 | the single subtraction computes `(p + k) mod total_size` |
| RingBuffers.WrapAdd | main/ring_buffer.c:125-129 | advancing by `a` and then by `b` is advancing by `a + b` |
| RingBuffers.RingBuffer.Contents | main/ring_buffer.h:31-41 | the stored bytes number `data_cnt` |
| RingBuffers.RingBuffer.Init | main/ring_buffer.c:6-32 | a failed mutex or `malloc` returns RETURN_ERR and keeps the counters. Success gives RETURN_OK, a fresh buffer of `total_size` bytes, `data_cnt = wp = rp = 0`, and no stored bytes |
| RingBuffers.RingBuffer.Write | main/ring_buffer.c:34-70 | when `data_cnt + size > total_size`, RETURN_ERR and nothing changes. Otherwise RETURN_OK: the stored bytes are the old ones followed by the data, `data[i]` sits at slot `(wp + i) mod total_size`, every other slot is unchanged, `wp` advances by `size` modulo `total_size`, and the invariants hold |
| RingBuffers.RingBuffer.Read | main/ring_buffer.c:73-135 | on an empty buffer, RETURN_ERR and nothing changes. Otherwise it returns `n = min(size, data_cnt)` and hands out the `n` oldest bytes in order. Those bytes are removed, `rp` advances by `n` modulo `total_size`, and the invariants hold |
| RingBuffers.RingBuffer.GetSize | main/ring_buffer.c:138-149 | the size is the number of stored bytes and at most the capacity |
| RingBuffers.RingBuffer.GetLeftSize | main/ring_buffer.c:153-164 | the room left plus the size is the capacity |
| RingBuffers.RingBuffer.Clear | main/ring_buffer.c:166-181 | without a lock, RETURN_ERR and nothing changes. Otherwise the first `data_cnt` bytes from the start of the buffer, not from `rp`, are zeroed, the rest is kept, and the counters and indices are reset |
| RingBuffers.RingBuffer.Free | main/ring_buffer.c:184-203 | without a lock, RETURN_ERR and nothing changes; otherwise the storage is released and the counters and indices are reset |
| RingBuffers.CopyInto | main/ring_buffer.c:51-58 | `memcpy` into the buffer places the source bytes at the destination offset and leaves the rest |
| RingBuffers.Placed | main/ring_buffer.c:46-59 | the one or two copies of a write put `data[i]` at slot `(wp + i) mod total_size` and leave every other slot |
| RingBuffers.StoredAfter | main/ring_buffer.c:46-67 | after bytes are placed from `wp = rp + data_cnt`, the stored bytes are the old ones followed by the new ones |
| RingBuffers.ReadStep | main/ring_buffer.c:86-131 | the one or two copies of a read hand out the first `n` stored bytes, and the stored bytes from the advanced `rp` are the rest |
| RingBuffers.RemovedFront | main/ring_buffer.c:102-131 | taking `n` bytes off the front leaves the stored bytes from the advanced read index, and `wp` is still `rp + data_cnt` modulo the capacity |
| DescriptorsControl.CLength | tinyusb/additions/src/descriptors_control.c:162 | `strlen` is the index of the first NUL |
| DescriptorsControl.CharCount | tinyusb/additions/src/descriptors_control.c:162-165 | `chr_count` is the smaller of `strlen` modulo 256 and 31: it is at most both, and equal to one of them |
| DescriptorsControl.Widen | tinyusb/additions/src/descriptors_control.c:167-169 | each character becomes the 16-bit code unit of the same value |
| DescriptorsControl.LeWord | tinyusb/additions/src/descriptors_control.c:150 | the two bytes copied into a word are its low and high byte |
| DescriptorsControl.StringDescriptor | tinyusb/additions/src/descriptors_control.c:143-176 | the result is NULL exactly when the index is non-zero and not below the table size; a descriptor has 1 to 32 words |
| DescriptorsControl.ParseString | tinyusb/additions/src/descriptors_control.c:172-173 | a host-side parse returns fewer code units than there are words |
| DescriptorsControl.HeaderFields | tinyusb/additions/src/descriptors_control.c:173 | the header's high byte is 3; its low byte is `2*chr_count + 2`, even and at most 64 |
| DescriptorsControl.DescriptorSelfDescribing | tinyusb/additions/src/descriptors_control.c:149-173 | every returned descriptor has type 3 and declares exactly its own size in bytes |
| DescriptorsControl.ParseEncoded | tinyusb/additions/src/descriptors_control.c:149-173 | parsing the descriptor gives back the language ID for index 0, and otherwise the first `chr_count` characters of the string, widened |
| DescriptorsControl.ShortStringWhole | tinyusb/additions/src/descriptors_control.c:162-169 | a string of at most 31 characters is sent whole |
| DescriptorsControl.WrappedLengthDropsString | tinyusb/additions/src/descriptors_control.c:147-165 | a 256-character string is sent as an empty descriptor with header 0x0302, because `chr_count` is a `uint8_t` |
| DescriptorsControl.DescriptorControl.constructor | tinyusb/additions/src/descriptors_control.c:19-20 | the zero-initialised statics: `s_descriptor` is all zeros, every `s_str_descriptor` entry is NULL, `_desc_str` (line 139) is 32 zero words, and `tusb_desc_set` is false |
| DescriptorsControl.DescriptorControl.StringCallback | tinyusb/additions/src/descriptors_control.c:143-176 | NULL is returned exactly when `StringDescriptor` is NULL, and then `_desc_str` is untouched. Otherwise `_desc_str` starts with the descriptor: the language ID for index 0 with header 0x0304, or the widened characters. Its later words are unchanged |
| DescriptorsControl.DescriptorControl.SetDescriptor | tinyusb/additions/src/descriptors_control.c:196-222 | the descriptor is copied, the string table is copied only when one is given, and the set flag is raised |
| DescriptorsControl.DescriptorControl.GetActiveDesc | tinyusb/additions/src/descriptors_control.c:224-227 | the getter returns the stored descriptor |
| DescriptorsControl.DescriptorControl.GetActiveStrDesc | tinyusb/additions/src/descriptors_control.c:229-232 | the getter returns the stored string table |
| DescriptorsControl.DescriptorControl.ClearDescriptor | tinyusb/additions/src/descriptors_control.c:234-239 | the descriptor and every table entry are zeroed and the set flag is cleared |

## Left out

- The body of `msc_task` (main/msc_task.c:110-162) is left out, apart from its allocation, copy and patch (lines 127-132), which `MscDevice.Boot` models. The rest is the partition lookup, a diagnostic read and an idle loop. The lookup dereferences its result before its NULL check.
- MscTask.MscDevice.Boot: the partition is a parameter. A missing partition and a failed `heap_caps_calloc` are not modelled.
- The model starts after `Boot`, with the partition found. `find_partition` is NULL until `msc_task` runs its lookup (main/msc_task.c:25), so the `find_partition == NULL` branch of `tud_msc_read10_cb` is not modelled.
- The inquiry, test-unit-ready and start-stop callbacks (main/msc_task.c:183-248) are left out. They copy constant strings or return `true`.
- `esp_partition_erase_range`, `esp_partition_write` and `esp_partition_read` are platform services whose code is not part of this model.
  - The model assumes the service's bounds checks: a read or write is refused when it runs past the end, and an erase also needs 4096-byte alignment.
  - A write overwrites bytes. It does not AND them into the flash, as NOR flash would.
- `xTaskGetTickCount` is an input (`now`). `esp_restart` is the `restart` output of `TickerPoll`. `tud_msc_set_sense` is the `sense` field of the SCSI reply.
- `ticker_task` is modelled as one poll. The task loop and `vTaskDelay` are left out.
- `ticker_task` (main/msc_task.c:164) is `static`, and no task is created for it in the files shown: main/main.c:94-98 starts only the usbd, hid, cdc, msc and web tasks. So, as shipped, the device never restarts itself after an update. `TickerPoll` models what one poll would decide if the task were started.
- MscTask.Write10Pre: a write that goes to the RAM disk must fit inside the 25600-byte buffer, which the source does not check. The buffer must also hold at least one byte. The source reads `buffer[0]` at main/msc_task.c:279 whatever `bufsize` is, so an empty write reads a byte the model has no value for.
- MscTask.Read10Pre: a RAM-disk read must fit inside the 25600-byte buffer. The source does not check this either.
- MscTask.MscDevice.Read10 returns the bytes it copies instead of writing through the host's pointer.
- RingBuffers.RingBuffer.Read returns the bytes it copies instead of writing through `data_addr`.
- The FreeRTOS mutex and `malloc` are modelled only by their outcomes: the `hasLock` flag and `Init`'s `mutexCreated` and `mallocOk` parameters. Taking and giving the lock is not modelled, because the class is sequential.
- RingBuffers.RingBuffer.Write: requires `data_cnt + size` to stay below 2^32. The source's admission check wraps in 32 bits and would let an oversized write through.
- RingBuffers.RingBuffer.Init: requires `total_size` below 2^31. Then `wp + size` and `rp + size` never wrap, and every count fits the `int` the functions return.
- RingBuffers.RingBuffer.GetSize and RingBuffers.RingBuffer.GetLeftSize do not model the `RETURN_ERR` returned for a NULL buffer pointer. A method call always has an object.
- The configuration, BOS and MS OS 2.0 descriptor tables and the HID report callback are built from macros whose definitions are not part of this model.
- The logging in `tusb_set_descriptor` is left out.
- DescriptorsControl.DescriptorControl.StringCallback assumes that `char` is unsigned, so each byte is zero-extended. The string table comes from the caller of `tusb_set_descriptor`, which is not part of this model, and may hold any byte. For bytes of 0x80 and above the zero extension is an assumption; a signed `char` would sign-extend them instead.
- `USB_STRING_DESCRIPTOR_ARRAY_SIZE` is not defined in the files modelled. It becomes the class constant `tableSize`.
- The string table entries are views of `char *` pointers: NULL, or the bytes readable from the pointer. `langid` is ignored, as in the source.
- The getters return copies of the stored descriptor and table, not pointers to them.

Where the code does less than one might expect, the model follows the code:
- The restart measures from the trigger's tick count. Later writes do not refresh it.
- The restart condition does not test update mode, and before the trigger the stamp is 0, so a started ticker would restart the device 1000 ticks after boot without any update (`RestartWithoutUpdate`).
- The result of the erase is ignored, and so a failed erase does not block the update. The partition's size is not required to be whole 4096-byte sectors; for one that is not, the erase is refused and the image is programmed over the old bytes (`ContiguousImage`).
- The cursor advances by `bufsize` even when the partition write is refused.
- A read at or above block 50 reads partition address `lba*512 + offset - 512`.

## Findings

| source | as written | input that shows it | evidently intended | confidence | as-written member | corrected member |
|---|---|---|---|---|---|---|
| main/msc_task.c:317-340 | `resplen` is `uint16_t`, so `resplen = -1` stores 65535 and the clamp turns it into `bufsize`; the callback reports a full-length success for an unsupported command | opcode 0x3C (READ BUFFER (10), data-in) with `bufsize` 512: returns 512 with the ILLEGAL REQUEST sense set; opcode 0x35 (SYNCHRONIZE CACHE (10), no data, `bufsize` 0): returns 0, also a success | a signed length, so an unsupported command returns -1 and the stack can stall or fail it, as the comment at line 333 says | not executed | MscTask.ScsiCallbackAsWritten, MscTask.UnsupportedCommandLooksSuccessful | MscTask.ScsiCallback |
