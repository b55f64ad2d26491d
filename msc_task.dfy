/**
 * The mass-storage block translator and in-field update trigger.
 *
 * Blocks below 50 are served from a RAM copy of the FAT image; blocks from 50
 * on are read from the flash partition. Writes go to the RAM disk until one
 * arrives whose first byte is the ESP image magic 0xE9: from then on the
 * device is in update mode for good, the partition has been erased once, and
 * every write at or above the block where the image began is programmed into
 * the partition at a running byte cursor, while writes below that block are
 * dropped. Were `ticker_task` running (nothing in the firmware starts it), a
 * poll would restart the device once more than 1000 ticks have passed since
 * `old_millis`, which stays 0 until the trigger.
 *
 * The functions on `State` are the specification; `MscDevice` is the
 * callback-level object whose fields are the source's globals.
 */
module MscTask {
  import opened Common
  import FatImage
  import P = Partition

  const ESP_IMAGE_MAGIC: byte := 0xE9
  /** Ticks of `xTaskGetTickCount` past `old_millis` that the poll tolerates before restarting. */
  const IDLE_TICKS: nat := 1000

  /** The module globals: `msc_disk`, `idf_flash`, `_lba`, `_offset`, `old_millis`, and the partition. */
  datatype State = State(
    disk: seq<byte>,
    idfFlash: bool,
    startLba: uint32,
    cursor: uint32,
    oldMillis: uint32,
    part: P.Partition)

  predicate WellFormed(s: State) {
    |s.disk| == FatImage.DISK_BYTES && P.Valid(s.part)
  }

  /** `&msc_disk[lba * 512] + offset`: the index is computed in 32 bits, the pointer offset is not. */
  function DiskAddr(lba: uint32, offset: uint32): (r: nat)
    ensures lba < FatImage.DISK_BLOCK_NUM ==> r == lba * FatImage.DISK_BLOCK_SIZE + offset
  {
    (lba * FatImage.DISK_BLOCK_SIZE) % UINT32_RANGE + offset
  }

  /** `(lba * 512) + offset - 512`, computed in 32 bits: the partition address of a read at or above block 50. */
  function FlashAddr(lba: uint32, offset: uint32): (r: uint32)
    ensures (r + FatImage.DISK_BLOCK_SIZE) % UINT32_RANGE == (lba * FatImage.DISK_BLOCK_SIZE + offset) % UINT32_RANGE
  {
    (lba * FatImage.DISK_BLOCK_SIZE + offset - FatImage.DISK_BLOCK_SIZE) % UINT32_RANGE
  }

  // ---------------------------------------------------------------------------
  // The partition log during an update
  // ---------------------------------------------------------------------------

  /** The data of the write calls in `calls`, in order. */
  function Payloads(calls: seq<P.Call>): (r: seq<seq<byte>>)
    decreases |calls|
  {
    if calls == [] then []
    else
      Payloads(calls[..|calls| - 1]) +
      match calls[|calls| - 1]
      case WriteCall(_, data) => [data]
      case EraseRangeCall(_, _) => []
  }

  /** Every call is a write, and each one lands where the previous ones ended (modulo 2^32). */
  predicate Sequential(calls: seq<P.Call>)
    decreases |calls|
  {
    calls == [] ||
    (var prev := calls[..|calls| - 1];
     && Sequential(prev)
     && calls[|calls| - 1].WriteCall?
     && calls[|calls| - 1].offset == TotalLength(Payloads(prev)) % UINT32_RANGE)
  }

  /** What the update has programmed so far (nothing before the trigger). */
  function UpdatePayloads(s: State): seq<seq<byte>> {
    if s.idfFlash && |s.part.log| >= 1 then Payloads(s.part.log[1..]) else []
  }

  /**
   * What holds of the globals between callbacks: before the trigger the
   * partition is untouched and the update globals keep their initial zeros;
   * after it, the log is one full erase followed by sequential writes, and the
   * cursor is the total length of what was programmed, modulo 2^32.
   */
  predicate Inv(s: State) {
    && WellFormed(s)
    && (!s.idfFlash ==> s.part.log == [] && s.startLba == 0 && s.oldMillis == 0)
    && (s.idfFlash ==>
          |s.part.log| >= 1 && s.part.log[0] == P.EraseRangeCall(0, s.part.size) && Sequential(s.part.log[1..]))
    && s.cursor == TotalLength(UpdatePayloads(s)) % UINT32_RANGE
  }

  /** The globals once `msc_task` has found the partition and patched the RAM disk. */
  function BootState(part: P.Partition): (r: State)
    requires P.Valid(part) && part.log == []
    ensures Inv(r) && !r.idfFlash && r.part == part
    ensures r.disk == FatImage.Patched(part.size)
  {
    State(FatImage.Patched(part.size), false, 0, 0, 0, part)
  }

  // ---------------------------------------------------------------------------
  // The callbacks, as functions of the state
  // ---------------------------------------------------------------------------

  /** `tud_msc_capacity_cb`: the partition's size in 512-byte blocks, whatever the template's size. */
  function ReportedCapacity(s: State): (r: (uint32, uint16))
    ensures r.1 == FatImage.DISK_BLOCK_SIZE
    ensures r.0 * FatImage.DISK_BLOCK_SIZE <= s.part.size < (r.0 + 1) * FatImage.DISK_BLOCK_SIZE
  {
    (FatImage.BlockCount(s.part.size), FatImage.DISK_BLOCK_SIZE)
  }

  /** What a read demands: a RAM-disk read must stay inside the 25600-byte buffer. */
  predicate Read10Pre(s: State, lba: uint32, offset: uint32, bufsize: nat) {
    WellFormed(s) && bufsize < UINT32_RANGE &&
    (lba < FatImage.DISK_BLOCK_NUM ==> DiskAddr(lba, offset) + bufsize <= FatImage.DISK_BYTES)
  }

  /**
   * `tud_msc_read10_cb`: the bytes left in the host's buffer (`buffer` is what
   * was there before). A partition read the service refuses leaves it as it was.
   */
  function Read10Spec(s: State, lba: uint32, offset: uint32, buffer: seq<byte>): (r: seq<byte>)
    requires Read10Pre(s, lba, offset, |buffer|)
    ensures |r| == |buffer|
  {
    if lba < FatImage.DISK_BLOCK_NUM then
      var a := DiskAddr(lba, offset);
      s.disk[a..a + |buffer|]
    else
      match P.Read(s.part, FlashAddr(lba, offset), |buffer|)
      case Some(data) => data
      case None => buffer
  }

  /** Whether this write starts the update. */
  predicate Triggers(s: State, buffer: seq<byte>)
    requires |buffer| >= 1
  {
    buffer[0] == ESP_IMAGE_MAGIC && !s.idfFlash
  }

  /** Whether this write is programmed into the partition. */
  predicate Programs(s: State, lba: uint32, buffer: seq<byte>)
    requires |buffer| >= 1
  {
    if s.idfFlash then lba >= s.startLba else Triggers(s, buffer)
  }

  /**
   * What a write demands: a first byte to inspect, and, when it will go to the
   * RAM disk, a range inside the 25600-byte buffer (the source does not check).
   */
  predicate Write10Pre(s: State, lba: uint32, offset: uint32, buffer: seq<byte>) {
    WellFormed(s) && 1 <= |buffer| < UINT32_RANGE &&
    (!s.idfFlash && buffer[0] != ESP_IMAGE_MAGIC ==> DiskAddr(lba, offset) + |buffer| <= FatImage.DISK_BYTES)
  }

  /** `tud_msc_write10_cb`: the new globals and the value returned to the transport. */
  function Write10Spec(s: State, lba: uint32, offset: uint32, buffer: seq<byte>, now: uint32): (r: (State, int))
    requires Write10Pre(s, lba, offset, buffer)
    ensures WellFormed(r.0) && r.0.part.size == s.part.size && r.0.part.initial == s.part.initial
    // every write reports its full length, whatever happened to it
    ensures r.1 == Int32(|buffer|)
    // update mode is entered by the magic byte and never left
    ensures r.0.idfFlash == (s.idfFlash || buffer[0] == ESP_IMAGE_MAGIC)
  {
    var s1 :=
      if Triggers(s, buffer) then
        s.(idfFlash := true, startLba := lba, part := P.EraseRange(s.part, 0, s.part.size).0, oldMillis := now)
      else s;
    if !s1.idfFlash then
      var a := DiskAddr(lba, offset);
      (s1.(disk := s1.disk[..a] + buffer + s1.disk[a + |buffer|..]), Int32(|buffer|))
    else if lba < s1.startLba then
      (s1, Int32(|buffer|))
    else
      (s1.(part := P.Write(s1.part, s1.cursor, buffer).0, cursor := (s1.cursor + |buffer|) % UINT32_RANGE),
       Int32(|buffer|))
  }

  /** What one write callback does to the globals, case by case. */
  lemma Write10Effects(s: State, lba: uint32, offset: uint32, buffer: seq<byte>, now: uint32)
    requires Write10Pre(s, lba, offset, buffer)
    ensures var r := Write10Spec(s, lba, offset, buffer, now).0;
      // the trigger: block and time recorded, one full erase, then this buffer programmed at the cursor
      && (Triggers(s, buffer) ==>
            && r.startLba == lba && r.oldMillis == now
            && r.part.log == s.part.log + [P.EraseRangeCall(0, s.part.size), P.WriteCall(s.cursor, buffer)])
      && (!Triggers(s, buffer) ==> r.startLba == s.startLba && r.oldMillis == s.oldMillis)
      // outside update mode: the bytes land in the RAM disk and nothing else changes
      && (!r.idfFlash ==>
            var a := DiskAddr(lba, offset);
            && r == s.(disk := r.disk)
            && r.disk[a..a + |buffer|] == buffer
            && (forall i :: 0 <= i < |s.disk| && !(a <= i < a + |buffer|) ==> r.disk[i] == s.disk[i]))
      // in update mode the RAM disk is never written
      && (r.idfFlash ==> r.disk == s.disk)
      // below the start block the write is dropped without a trace
      && (s.idfFlash && lba < s.startLba ==> r == s)
      // otherwise it is programmed at the cursor, which then advances by its length
      && (s.idfFlash && lba >= s.startLba ==>
            r == s.(part := r.part, cursor := r.cursor) &&
            r.part.log == s.part.log + [P.WriteCall(s.cursor, buffer)])
      && (Programs(s, lba, buffer) ==> r.cursor == (s.cursor + |buffer|) % UINT32_RANGE)
  {
  }

  /** The state after the trigger test, and which of the three branches of the write follows from it. */
  lemma WriteBranches(s: State, lba: uint32, offset: uint32, buffer: seq<byte>, now: uint32, s1: State)
    requires Write10Pre(s, lba, offset, buffer)
    requires s1 == if Triggers(s, buffer) then
        s.(idfFlash := true, startLba := lba, part := P.EraseRange(s.part, 0, s.part.size).0, oldMillis := now)
      else s
    ensures var r := Write10Spec(s, lba, offset, buffer, now).0;
      && (!s1.idfFlash ==>
            var a := DiskAddr(lba, offset);
            a + |buffer| <= |s1.disk| && r == s1.(disk := s1.disk[..a] + buffer + s1.disk[a + |buffer|..]))
      && (s1.idfFlash && lba < s1.startLba ==> r == s1)
      && (s1.idfFlash && lba >= s1.startLba ==>
            r == s1.(part := P.Write(s1.part, s1.cursor, buffer).0, cursor := (s1.cursor + |buffer|) % UINT32_RANGE))
  {
  }

  /** `ticker_task`'s test: the unsigned 32-bit difference of the tick counter and the stamp exceeds 1000. */
  function RestartDue(now: uint32, oldMillis: uint32): (r: bool)
    ensures r <==> (if now >= oldMillis then now - oldMillis else now - oldMillis + UINT32_RANGE) > IDLE_TICKS
  {
    (now - oldMillis) % UINT32_RANGE > IDLE_TICKS
  }

  // ---------------------------------------------------------------------------
  // Properties
  // ---------------------------------------------------------------------------

  lemma ModAdd(a: nat, b: nat)
    ensures (a % UINT32_RANGE + b) % UINT32_RANGE == (a + b) % UINT32_RANGE
  {
    var q := a / UINT32_RANGE;
    assert a == q * UINT32_RANGE + a % UINT32_RANGE;
    assert a + b == (a % UINT32_RANGE + b) + q * UINT32_RANGE;
  }

  lemma SequentialAppend(ws: seq<P.Call>, w: P.Call)
    requires Sequential(ws)
    requires w.WriteCall? && w.offset == TotalLength(Payloads(ws)) % UINT32_RANGE
    ensures Sequential(ws + [w])
    ensures Payloads(ws + [w]) == Payloads(ws) + [w.data]
  {
    assert (ws + [w])[..|ws|] == ws;
  }

  /** Once in update mode, a write leaves the start block, the restart stamp and the RAM disk alone. */
  lemma UpdateModeKeeps(s: State, lba: uint32, offset: uint32, buffer: seq<byte>, now: uint32)
    requires Write10Pre(s, lba, offset, buffer) && s.idfFlash
    ensures var r := Write10Spec(s, lba, offset, buffer, now).0;
      r.idfFlash && r.startLba == s.startLba && r.oldMillis == s.oldMillis && r.disk == s.disk
  {
  }

  /** The update writes after one more write at the cursor: still sequential, one payload longer. */
  lemma LogStep(ws: seq<P.Call>, cursor: nat, buffer: seq<byte>)
    requires Sequential(ws) && cursor == TotalLength(Payloads(ws)) % UINT32_RANGE
    ensures Sequential(ws + [P.WriteCall(cursor, buffer)])
    ensures Payloads(ws + [P.WriteCall(cursor, buffer)]) == Payloads(ws) + [buffer]
    ensures (cursor + |buffer|) % UINT32_RANGE == TotalLength(Payloads(ws) + [buffer]) % UINT32_RANGE
  {
    SequentialAppend(ws, P.WriteCall(cursor, buffer));
    AppendChunk(Payloads(ws), buffer);
    ModAdd(TotalLength(Payloads(ws)), |buffer|);
  }

  /** Programming a buffer at the cursor during an update keeps the invariant and records the buffer. */
  lemma ProgramKeepsInv(s: State, buffer: seq<byte>, t: State)
    requires Inv(s) && s.idfFlash
    requires t == s.(part := P.Write(s.part, s.cursor, buffer).0, cursor := (s.cursor + |buffer|) % UINT32_RANGE)
    ensures Inv(t) && UpdatePayloads(t) == UpdatePayloads(s) + [buffer]
  {
    var log := s.part.log;
    assert t.part.log[1..] == log[1..] + [P.WriteCall(s.cursor, buffer)];
    LogStep(log[1..], s.cursor, buffer);
  }

  /** The trigger: one full erase, with the update globals still at their initial zeros. */
  lemma TriggerKeepsInv(s: State, lba: uint32, now: uint32, t: State)
    requires Inv(s) && !s.idfFlash
    requires t == s.(idfFlash := true, startLba := lba, part := P.EraseRange(s.part, 0, s.part.size).0, oldMillis := now)
    ensures Inv(t) && UpdatePayloads(t) == [] && t.cursor == 0
  {
    assert t.part.log == [P.EraseRangeCall(0, s.part.size)];
    assert t.part.log[1..] == [];
  }

  /** Every write callback keeps the invariant. */
  lemma Write10KeepsInv(s: State, lba: uint32, offset: uint32, buffer: seq<byte>, now: uint32)
    requires Inv(s) && Write10Pre(s, lba, offset, buffer)
    ensures Inv(Write10Spec(s, lba, offset, buffer, now).0)
    ensures UpdatePayloads(Write10Spec(s, lba, offset, buffer, now).0) ==
              UpdatePayloads(s) + (if Programs(s, lba, buffer) then [buffer] else [])
  {
    if Triggers(s, buffer) {
      var s1 := s.(idfFlash := true, startLba := lba, part := P.EraseRange(s.part, 0, s.part.size).0, oldMillis := now);
      TriggerKeepsInv(s, lba, now, s1);
      ProgramKeepsInv(s1, buffer, Write10Spec(s, lba, offset, buffer, now).0);
    } else if s.idfFlash && lba >= s.startLba {
      ProgramKeepsInv(s, buffer, Write10Spec(s, lba, offset, buffer, now).0);
    }
  }

  /** The last of a run of sequential writes that fits below 2^32 lands exactly where the others end. */
  lemma SequentialLast(ws: seq<P.Call>)
    requires Sequential(ws) && ws != [] && TotalLength(Payloads(ws)) < UINT32_RANGE
    ensures var ws' := ws[..|ws| - 1];
      && Sequential(ws')
      && ws[|ws| - 1] == P.WriteCall(TotalLength(Payloads(ws')), ws[|ws| - 1].data)
      && Payloads(ws) == Payloads(ws') + [ws[|ws| - 1].data]
      && TotalLength(Payloads(ws)) == TotalLength(Payloads(ws')) + |ws[|ws| - 1].data|
  {
    var ws' := ws[..|ws| - 1];
    var w := ws[|ws| - 1];
    assert Payloads(ws) == Payloads(ws') + [w.data];
    AppendChunk(Payloads(ws'), w.data);
  }

  lemma AppendChunk(chunks: seq<seq<byte>>, d: seq<byte>)
    ensures TotalLength(chunks + [d]) == TotalLength(chunks) + |d|
    ensures Concat(chunks + [d]) == Concat(chunks) + d
  {
    assert (chunks + [d])[..|chunks|] == chunks;
  }

  /** Writing just past the bytes already programmed over `base`. */
  lemma WriteAtEnd(prefix: seq<byte>, data: seq<byte>, base: seq<byte>)
    requires |prefix| + |data| <= |base|
    ensures P.Apply(prefix + base[|prefix|..], P.WriteCall(|prefix|, data)) ==
              prefix + data + base[|prefix| + |data|..]
  {
    var c := prefix + base[|prefix|..];
    assert c[..|prefix|] == prefix;
    assert c[|prefix| + |data|..] == base[|prefix| + |data|..];
  }

  /** One write more at the end of the image: the induction step of `SequentialImage`. */
  lemma ImageStep(base: seq<byte>, pre: seq<seq<byte>>, data: seq<byte>, before: seq<byte>)
    requires TotalLength(pre) + |data| <= |base|
    requires before == Concat(pre) + base[TotalLength(pre)..]
    ensures P.Apply(before, P.WriteCall(TotalLength(pre), data)) ==
              Concat(pre + [data]) + base[TotalLength(pre + [data])..]
  {
    AppendChunk(pre, data);
    ConcatLength(pre);
    WriteAtEnd(Concat(pre), data, base);
  }

  /**
   * The partition content replayed from `base` through sequential writes that
   * fit: the payloads back to back, then what `base` held past them.
   */
  lemma {:induction false} SequentialImage(base: seq<byte>, ws: seq<P.Call>)
    requires Sequential(ws) && TotalLength(Payloads(ws)) <= |base| < UINT32_RANGE
    ensures P.Replay(base, ws) == Concat(Payloads(ws)) + base[TotalLength(Payloads(ws))..]
    decreases |ws|
  {
    if ws == [] {
      assert base[0..] == base;
    } else {
      var ws' := ws[..|ws| - 1];
      SequentialLast(ws);
      SequentialImage(base, ws');
      ImageStep(base, Payloads(ws'), ws[|ws| - 1].data, P.Replay(base, ws'));
    }
  }

  /**
   * During an update whose programmed bytes fit the partition, the partition
   * holds those bytes contiguously from address 0, in arrival order. Past
   * them it is erased when its size is whole sectors; otherwise the trigger's
   * erase was refused (and ignored), and past them it keeps its boot content.
   */
  lemma ContiguousImage(s: State)
    requires Inv(s) && s.idfFlash && TotalLength(UpdatePayloads(s)) <= s.part.size
    ensures P.Content(s.part)[..TotalLength(UpdatePayloads(s))] == Concat(UpdatePayloads(s))
    ensures s.part.size % P.SECTOR_SIZE == 0 ==>
              forall i :: TotalLength(UpdatePayloads(s)) <= i < s.part.size ==> P.Content(s.part)[i] == P.ERASED
    ensures s.part.size % P.SECTOR_SIZE != 0 ==>
              forall i :: TotalLength(UpdatePayloads(s)) <= i < s.part.size ==> P.Content(s.part)[i] == s.part.initial[i]
  {
    var log := s.part.log;
    assert log == [log[0]] + log[1..];
    P.ReplayAfterFullErase(s.part.initial, log[1..]);
    SequentialImage(P.ErasedWhole(s.part.initial), log[1..]);
    ConcatLength(UpdatePayloads(s));
  }

  /**
   * Before an update, a write that is not an image start goes to the RAM disk,
   * and reading the same blocks back returns exactly what was written.
   */
  lemma DiskRoundTrip(s: State, lba: uint32, offset: uint32, buffer: seq<byte>, now: uint32, junk: seq<byte>)
    requires Write10Pre(s, lba, offset, buffer) && !s.idfFlash && buffer[0] != ESP_IMAGE_MAGIC
    requires lba < FatImage.DISK_BLOCK_NUM && |junk| == |buffer|
    ensures Read10Pre(Write10Spec(s, lba, offset, buffer, now).0, lba, offset, |junk|)
    ensures Read10Spec(Write10Spec(s, lba, offset, buffer, now).0, lba, offset, junk) == buffer
  {
  }

  /**
   * During an update, a read at or above block 50 whose partition address lies
   * within the programmed bytes returns the image bytes streamed there.
   */
  lemma ReadBackImage(s: State, lba: uint32, offset: uint32, buffer: seq<byte>)
    requires Inv(s) && s.idfFlash && TotalLength(UpdatePayloads(s)) <= s.part.size
    requires lba >= FatImage.DISK_BLOCK_NUM && |buffer| < UINT32_RANGE
    requires FlashAddr(lba, offset) + |buffer| <= TotalLength(UpdatePayloads(s))
    ensures Read10Pre(s, lba, offset, |buffer|)
    ensures |Concat(UpdatePayloads(s))| == TotalLength(UpdatePayloads(s))
    ensures Read10Spec(s, lba, offset, buffer) ==
              Concat(UpdatePayloads(s))[FlashAddr(lba, offset)..FlashAddr(lba, offset) + |buffer|]
  {
    ContiguousImage(s);
    ConcatLength(UpdatePayloads(s));
    var a := FlashAddr(lba, offset);
    var t := TotalLength(UpdatePayloads(s));
    var r := Read10Spec(s, lba, offset, buffer);
    var img := Concat(UpdatePayloads(s));
    forall i | 0 <= i < |buffer| ensures r[i] == img[a..a + |buffer|][i] {
      assert P.Content(s.part)[..t][a + i] == P.Content(s.part)[a + i];
    }
  }

  // ---------------------------------------------------------------------------
  // Sequences of writes
  // ---------------------------------------------------------------------------

  datatype WriteRequest = WriteRequest(lba: uint32, offset: uint32, buffer: seq<byte>, now: uint32)

  predicate StepPre(s: State, req: WriteRequest) {
    Write10Pre(s, req.lba, req.offset, req.buffer)
  }

  /** The globals after one write callback. */
  function Step(s: State, req: WriteRequest): State
    requires StepPre(s, req)
  {
    Write10Spec(s, req.lba, req.offset, req.buffer, req.now).0
  }

  predicate Runnable(s: State, reqs: seq<WriteRequest>)
    decreases |reqs|
  {
    reqs == [] ||
    (StepPre(s, reqs[0]) && Runnable(Step(s, reqs[0]), reqs[1..]))
  }

  /** The globals after the write callbacks `reqs`, in order. */
  function Run(s: State, reqs: seq<WriteRequest>): State
    requires Runnable(s, reqs)
    decreases |reqs|
  {
    if reqs == [] then s
    else Run(Step(s, reqs[0]), reqs[1..])
  }

  /** The buffers of `reqs` that are programmed into the partition, in arrival order. */
  function Accepted(s: State, reqs: seq<WriteRequest>): seq<seq<byte>>
    requires Runnable(s, reqs)
    decreases |reqs|
  {
    if reqs == [] then []
    else
      (if Programs(s, reqs[0].lba, reqs[0].buffer) then [reqs[0].buffer] else []) +
      Accepted(Step(s, reqs[0]), reqs[1..])
  }

  /** One write callback from a state satisfying the invariant, summed up. */
  lemma StepFacts(s: State, r: WriteRequest)
    requires Inv(s) && StepPre(s, r)
    ensures var t := Step(s, r);
      && Inv(t) && t.part.size == s.part.size && t.part.initial == s.part.initial
      && UpdatePayloads(t) == UpdatePayloads(s) + (if Programs(s, r.lba, r.buffer) then [r.buffer] else [])
      && (s.idfFlash ==> t.idfFlash && t.startLba == s.startLba && t.oldMillis == s.oldMillis && t.disk == s.disk)
  {
    Write10KeepsInv(s, r.lba, r.offset, r.buffer, r.now);
    if s.idfFlash {
      UpdateModeKeeps(s, r.lba, r.offset, r.buffer, r.now);
    }
  }

  /** The first step of a run, split off. */
  lemma RunUnfold(s: State, reqs: seq<WriteRequest>)
    requires Runnable(s, reqs) && reqs != []
    ensures StepPre(s, reqs[0]) && Runnable(Step(s, reqs[0]), reqs[1..])
    ensures Run(s, reqs) == Run(Step(s, reqs[0]), reqs[1..])
    ensures Accepted(s, reqs) ==
              (if Programs(s, reqs[0].lba, reqs[0].buffer) then [reqs[0].buffer] else []) +
              Accepted(Step(s, reqs[0]), reqs[1..])
  {
  }

  lemma AppendAssoc<T>(a: seq<T>, b: seq<T>, c: seq<T>)
    ensures (a + b) + c == a + (b + c)
  {
  }

  /**
   * Over any run of writes: the invariant holds throughout; the payloads
   * programmed are exactly the accepted buffers, in order; once in update mode
   * the start block, the restart stamp and the RAM disk stay as they were.
   */
  lemma {:induction false} RunAccounting(s: State, reqs: seq<WriteRequest>)
    requires Inv(s) && Runnable(s, reqs)
    ensures Inv(Run(s, reqs))
    ensures Run(s, reqs).part.size == s.part.size && Run(s, reqs).part.initial == s.part.initial
    ensures UpdatePayloads(Run(s, reqs)) == UpdatePayloads(s) + Accepted(s, reqs)
    ensures s.idfFlash ==>
              var t := Run(s, reqs);
              t.idfFlash && t.startLba == s.startLba && t.oldMillis == s.oldMillis && t.disk == s.disk
    decreases |reqs|
  {
    if reqs == [] {
      assert UpdatePayloads(s) + [] == UpdatePayloads(s);
    } else {
      var r := reqs[0];
      RunUnfold(s, reqs);
      var s1 := Step(s, r);
      StepFacts(s, r);
      RunAccounting(s1, reqs[1..]);
      var mine := if Programs(s, r.lba, r.buffer) then [r.buffer] else [];
      AppendAssoc(UpdatePayloads(s), mine, Accepted(s1, reqs[1..]));
    }
  }

  /**
   * From boot, over any run of writes: either no update has started and the
   * partition was never touched, or the log is one full erase followed by the
   * accepted buffers written back to back; the cursor is their total length
   * modulo 2^32; and when they fit, the partition holds them contiguously.
   */
  lemma UpdateFromBoot(part: P.Partition, reqs: seq<WriteRequest>)
    requires P.Valid(part) && part.log == [] && Runnable(BootState(part), reqs)
    ensures var t := Run(BootState(part), reqs);
            && Inv(t) && t.part.size == part.size
            && (!t.idfFlash ==> t.part.log == [] && Accepted(BootState(part), reqs) == [])
            && (t.idfFlash ==>
                  |t.part.log| >= 1 && t.part.log[0] == P.EraseRangeCall(0, part.size) &&
                  Sequential(t.part.log[1..]) &&
                  Payloads(t.part.log[1..]) == Accepted(BootState(part), reqs))
            && t.cursor == TotalLength(Accepted(BootState(part), reqs)) % UINT32_RANGE
            && (TotalLength(Accepted(BootState(part), reqs)) <= part.size ==>
                  P.Content(t.part)[..TotalLength(Accepted(BootState(part), reqs))] ==
                    Concat(Accepted(BootState(part), reqs)))
  {
    var t := Run(BootState(part), reqs);
    RunAccounting(BootState(part), reqs);
    if t.idfFlash && TotalLength(Accepted(BootState(part), reqs)) <= part.size {
      ContiguousImage(t);
    } else if !t.idfFlash {
      assert P.Content(t.part) == part.initial;
    }
  }

  /**
   * With a run of writes after the trigger, the restart decision still measures
   * from the trigger's tick count: later writes do not re-arm it.
   */
  lemma RestartMeasuresFromTrigger(s: State, trigger: WriteRequest, later: seq<WriteRequest>, now: uint32)
    requires Inv(s) && Write10Pre(s, trigger.lba, trigger.offset, trigger.buffer) && Triggers(s, trigger.buffer)
    requires Runnable(s, [trigger] + later)
    ensures RestartDue(now, Run(s, [trigger] + later).oldMillis) == RestartDue(now, trigger.now)
  {
    var s1 := Write10Spec(s, trigger.lba, trigger.offset, trigger.buffer, trigger.now).0;
    assert ([trigger] + later)[1..] == later;
    Write10KeepsInv(s, trigger.lba, trigger.offset, trigger.buffer, trigger.now);
    RunAccounting(s1, later);
  }

  // ---------------------------------------------------------------------------
  // SCSI commands without a callback of their own
  // ---------------------------------------------------------------------------

  const SCSI_CMD_PREVENT_ALLOW_MEDIUM_REMOVAL: byte := 0x1E
  const SCSI_SENSE_ILLEGAL_REQUEST: byte := 0x05
  /** INVALID COMMAND OPERATION CODE (section 4.5.6 of SPC-4). */
  const ASC_INVALID_COMMAND_OPERATION_CODE: byte := 0x20

  datatype Sense = Sense(key: byte, asc: byte, ascq: byte)
  /** The value returned to the stack and the sense data set through `tud_msc_set_sense`, if any. */
  datatype ScsiReply = ScsiReply(resplen: int, sense: Option<Sense>)

  const INVALID_OPCODE_SENSE := Sense(SCSI_SENSE_ILLEGAL_REQUEST, ASC_INVALID_COMMAND_OPERATION_CODE, 0x00)

  /**
   * `tud_msc_scsi_cb` as written: `resplen` is a `uint16_t`, so the `-1` meant
   * to signal an error is stored as 65535 and then clamped to `bufsize`.
   */
  function ScsiCallbackAsWritten(opcode: byte, bufsize: uint16): (r: ScsiReply)
    ensures 0 <= r.resplen <= bufsize
    ensures opcode == SCSI_CMD_PREVENT_ALLOW_MEDIUM_REMOVAL ==> r == ScsiReply(0, None)
    ensures opcode != SCSI_CMD_PREVENT_ALLOW_MEDIUM_REMOVAL ==>
              r.sense == Some(INVALID_OPCODE_SENSE) && r.resplen == bufsize
  {
    var resplen: uint16 := if opcode == SCSI_CMD_PREVENT_ALLOW_MEDIUM_REMOVAL then 0 else (-1) % 0x1_0000;
    var clamped := if resplen > bufsize then bufsize else resplen;
    ScsiReply(clamped, if opcode == SCSI_CMD_PREVENT_ALLOW_MEDIUM_REMOVAL then None else Some(INVALID_OPCODE_SENSE))
  }

  /**
   * Unsupported commands are answered as successes: READ BUFFER (10) (0x3C,
   * data-in) with a 512-byte buffer as a 512-byte transfer, and SYNCHRONIZE
   * CACHE (10) (0x35, no data phase, so `bufsize` 0) as a zero-length one,
   * though each also sets the error sense.
   */
  lemma UnsupportedCommandLooksSuccessful()
    ensures ScsiCallbackAsWritten(0x3C, 512) == ScsiReply(512, Some(INVALID_OPCODE_SENSE))
    ensures ScsiCallbackAsWritten(0x35, 0) == ScsiReply(0, Some(INVALID_OPCODE_SENSE))
    ensures ScsiCallback(0x3C, 512).resplen == ScsiCallback(0x35, 0).resplen == -1
  {
  }

  /**
   * The poll does not test update mode and `old_millis` is 0 until the
   * trigger: from boot, with no update started, a poll at tick 1001 would
   * already restart the device.
   */
  lemma RestartWithoutUpdate(part: P.Partition)
    requires P.Valid(part) && part.log == []
    ensures !BootState(part).idfFlash && RestartDue(1001, BootState(part).oldMillis)
    ensures !RestartDue(1000, BootState(part).oldMillis)
  {
  }

  /** `tud_msc_scsi_cb` as its comments intend: a signed `resplen`, so an unsupported command returns -1. */
  function ScsiCallback(opcode: byte, bufsize: uint16): (r: ScsiReply)
    ensures r.resplen <= bufsize
    ensures opcode == SCSI_CMD_PREVENT_ALLOW_MEDIUM_REMOVAL ==> r == ScsiReply(0, None)
    ensures opcode != SCSI_CMD_PREVENT_ALLOW_MEDIUM_REMOVAL ==> r == ScsiReply(-1, Some(INVALID_OPCODE_SENSE))
  {
    var resplen: int := if opcode == SCSI_CMD_PREVENT_ALLOW_MEDIUM_REMOVAL then 0 else -1;
    var clamped := if resplen > bufsize then bufsize else resplen;
    ScsiReply(clamped, if opcode == SCSI_CMD_PREVENT_ALLOW_MEDIUM_REMOVAL then None else Some(INVALID_OPCODE_SENSE))
  }

  // ---------------------------------------------------------------------------
  // The callbacks over the globals
  // ---------------------------------------------------------------------------

  class MscDevice {
    var disk: array<byte>       // msc_disk
    var idfFlash: bool          // idf_flash
    var startLba: uint32        // _lba
    var cursor: uint32          // _offset
    var oldMillis: uint32       // old_millis
    var part: P.Partition       // *find_partition and the flash behind it

    function Snapshot(): State
      reads this, disk
    {
      State(disk[..], idfFlash, startLba, cursor, oldMillis, part)
    }

    ghost predicate Valid()
      reads this, disk
    {
      Inv(Snapshot())
    }

    /** The part of `msc_task` that allocates the RAM disk, copies the template and patches BPB_TotSec16. */
    constructor Boot(partition: P.Partition)
      requires P.Valid(partition) && partition.log == []
      ensures Valid() && fresh(disk)
      ensures Snapshot() == BootState(partition)
    {
      var d := new byte[FatImage.DISK_BYTES];
      var image := FatImage.Template();
      forall i | 0 <= i < FatImage.DISK_BYTES {
        d[i] := image[i];
      }
      var count := FatImage.BlockCount(partition.size);
      d[FatImage.TOT_SEC16_OFFSET + 1] := (count / 0x100) % 0x100;
      d[FatImage.TOT_SEC16_OFFSET] := count % 0x100;
      disk := d;
      idfFlash := false;
      startLba := 0;
      cursor := 0;
      oldMillis := 0;
      part := partition;
      assert d[..] == FatImage.Patched(partition.size);
    }

    method Capacity() returns (blockCount: uint32, blockSize: uint16)
      ensures (blockCount, blockSize) == ReportedCapacity(Snapshot())
    {
      blockCount := part.size / FatImage.DISK_BLOCK_SIZE;
      blockSize := FatImage.DISK_BLOCK_SIZE;
    }

    /** `tud_msc_read10_cb`: `out` is the host buffer afterwards, `n` the value returned. */
    method Read10(lba: uint32, offset: uint32, buffer: seq<byte>) returns (n: int, out: seq<byte>)
      requires Read10Pre(Snapshot(), lba, offset, |buffer|)
      ensures n == Int32(|buffer|)
      ensures out == Read10Spec(Snapshot(), lba, offset, buffer)
    {
      if lba < FatImage.DISK_BLOCK_NUM {
        var a := DiskAddr(lba, offset);
        out := disk[a..a + |buffer|];
      } else {
        var data := P.Read(part, FlashAddr(lba, offset), |buffer|);
        out := if data.Some? then data.value else buffer;
      }
      n := Int32(|buffer|);
    }

    /** `tud_msc_write10_cb`; `now` is the tick count the trigger would stamp. */
    method Write10(lba: uint32, offset: uint32, buffer: seq<byte>, now: uint32) returns (n: int)
      requires Valid() && Write10Pre(Snapshot(), lba, offset, buffer)
      modifies this, disk
      ensures (Snapshot(), n) == Write10Spec(old(Snapshot()), lba, offset, buffer, now)
      ensures Valid() && disk == old(disk)
    {
      ghost var s := Snapshot();
      n := Int32(|buffer|);
      if buffer[0] == ESP_IMAGE_MAGIC && !idfFlash {
        idfFlash := true;
        startLba := lba;
        var erased := P.EraseRange(part, 0, part.size);   // the result is ignored
        part := erased.0;
        oldMillis := now;
      }
      ghost var s1 := Snapshot();
      WriteBranches(s, lba, offset, buffer, now, s1);
      if !idfFlash {
        var a := DiskAddr(lba, offset);
        forall i | 0 <= i < |buffer| {
          disk[a + i] := buffer[i];
        }
        assert disk[..] == s1.disk[..a] + buffer + s1.disk[a + |buffer|..];
        assert Snapshot() == s1.(disk := s1.disk[..a] + buffer + s1.disk[a + |buffer|..]);
      } else if lba < startLba {
        // below the start block: most likely a FAT update, ignored
        assert Snapshot() == s1;
      } else {
        var written := P.Write(part, cursor, buffer);        // the result is only logged
        part := written.0;
        cursor := (cursor + |buffer|) % UINT32_RANGE;
        assert Snapshot() == s1.(part := P.Write(s1.part, s1.cursor, buffer).0, cursor := (s1.cursor + |buffer|) % UINT32_RANGE);
      }
      assert Snapshot() == Write10Spec(s, lba, offset, buffer, now).0;
      Write10KeepsInv(s, lba, offset, buffer, now);
    }

    /** One iteration of `ticker_task`: whether it calls `esp_restart` at tick count `now`. */
    method TickerPoll(now: uint32) returns (restart: bool)
      ensures restart == RestartDue(now, oldMillis)
    {
      restart := (now - oldMillis) % UINT32_RANGE > IDLE_TICKS;
    }
  }
}
