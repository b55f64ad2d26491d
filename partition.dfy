/**
 * The flash partition behind the mass-storage device, as the platform's
 * partition service (`esp_partition_erase_range`, `esp_partition_write`,
 * `esp_partition_read`) presents it. The partition is an abstract object:
 * its size, the bytes it held at boot, and the log of the erase and write
 * calls made on it since. Its present content is the replay of that log.
 */
module Partition {
  import opened Common

  /** Erase granularity of the flash (one sector). */
  const SECTOR_SIZE: nat := 4096
  /** Value of an erased flash byte. */
  const ERASED: byte := 0xFF

  datatype Call =
    | EraseRangeCall(start: nat, len: nat)
    | WriteCall(offset: nat, data: seq<byte>)

  datatype Partition = Partition(size: uint32, initial: seq<byte>, log: seq<Call>)

  /** A partition of any size whose boot content has that size; nothing forces it to be whole sectors. */
  predicate Valid(p: Partition) {
    |p.initial| == p.size
  }

  function Erased(n: nat): (r: seq<byte>)
    ensures |r| == n
    ensures forall i :: 0 <= i < n ==> r[i] == ERASED
  {
    seq(n, _ => ERASED)
  }

  /** Whether the service accepts an erase of `[start, start + len)`: in range and sector-aligned. */
  predicate EraseAccepted(size: nat, start: nat, len: nat) {
    start + len <= size && start % SECTOR_SIZE == 0 && len % SECTOR_SIZE == 0
  }

  /** Whether the service accepts a read or write of `[offset, offset + len)`. */
  predicate InRange(size: nat, offset: nat, len: nat) {
    offset + len <= size
  }

  /** The effect of one call on the content; a refused call leaves it as it was. */
  function Apply(c: seq<byte>, call: Call): (r: seq<byte>)
    ensures |r| == |c|
  {
    match call
    case EraseRangeCall(start, len) =>
      if EraseAccepted(|c|, start, len) then c[..start] + Erased(len) + c[start + len..] else c
    case WriteCall(offset, data) =>
      if InRange(|c|, offset, |data|) then c[..offset] + data + c[offset + |data|..] else c
  }

  /** The content after the calls of `log`, in order, starting from `c`. */
  function Replay(c: seq<byte>, log: seq<Call>): (r: seq<byte>)
    ensures |r| == |c|
    decreases |log|
  {
    if log == [] then c else Apply(Replay(c, log[..|log| - 1]), log[|log| - 1])
  }

  /** What the partition holds now. */
  function Content(p: Partition): (r: seq<byte>)
    requires Valid(p)
    ensures |r| == p.size
  {
    Replay(p.initial, p.log)
  }

  /** `esp_partition_erase_range`: the call is logged; the result says whether it was accepted. */
  function EraseRange(p: Partition, start: nat, len: nat): (r: (Partition, bool))
    requires Valid(p)
    ensures Valid(r.0) && r.0.size == p.size && r.0.initial == p.initial
    ensures r.0.log == p.log + [EraseRangeCall(start, len)]
    ensures r.1 == EraseAccepted(p.size, start, len)
  {
    (p.(log := p.log + [EraseRangeCall(start, len)]), EraseAccepted(p.size, start, len))
  }

  /** An accepted erase sets its range to 0xFF; every other byte, and every byte after a refused erase, is kept. */
  lemma EraseRangeContent(p: Partition, start: nat, len: nat)
    requires Valid(p)
    ensures var (q, ok) := EraseRange(p, start, len);
      && (ok ==> forall i :: start <= i < start + len ==> Content(q)[i] == ERASED)
      && (forall i :: 0 <= i < p.size && !(ok && start <= i < start + len) ==> Content(q)[i] == Content(p)[i])
  {
    var q := EraseRange(p, start, len).0;
    assert Replay(p.initial, q.log) == Apply(Content(p), EraseRangeCall(start, len)) by {
      assert q.log[..|q.log| - 1] == p.log;
    }
  }

  /** `esp_partition_write`: the call is logged; the result says whether it was accepted. */
  function Write(p: Partition, offset: nat, data: seq<byte>): (r: (Partition, bool))
    requires Valid(p)
    ensures Valid(r.0) && r.0.size == p.size && r.0.initial == p.initial
    ensures r.0.log == p.log + [WriteCall(offset, data)]
    ensures r.1 == InRange(p.size, offset, |data|)
  {
    (p.(log := p.log + [WriteCall(offset, data)]), InRange(p.size, offset, |data|))
  }

  /** An accepted write stores `data` at `offset`; every other byte, and every byte after a refused write, is kept. */
  lemma WriteContent(p: Partition, offset: nat, data: seq<byte>)
    requires Valid(p)
    ensures var (q, ok) := Write(p, offset, data);
      && (ok ==> Content(q)[offset..offset + |data|] == data)
      && (forall i :: 0 <= i < p.size && !(ok && offset <= i < offset + |data|) ==> Content(q)[i] == Content(p)[i])
  {
    var q := Write(p, offset, data).0;
    assert Replay(p.initial, q.log) == Apply(Content(p), WriteCall(offset, data)) by {
      assert q.log[..|q.log| - 1] == p.log;
    }
  }

  /** `esp_partition_read`: the requested bytes, or None when the range is refused. */
  function Read(p: Partition, offset: nat, len: nat): (r: Option<seq<byte>>)
    requires Valid(p)
    ensures r.Some? <==> InRange(p.size, offset, len)
    ensures r.Some? ==> |r.value| == len && forall i :: 0 <= i < len ==> r.value[i] == Content(p)[offset + i]
  {
    if InRange(p.size, offset, len) then Some(Content(p)[offset..offset + len]) else None
  }

  lemma {:induction false} ReplayAppend(c: seq<byte>, a: seq<Call>, b: seq<Call>)
    ensures Replay(c, a + b) == Replay(Replay(c, a), b)
    decreases |b|
  {
    if b == [] {
      assert a + b == a;
    } else {
      var b' := b[..|b| - 1];
      assert (a + b)[..|a + b| - 1] == a + b';
      assert (a + b)[|a + b| - 1] == b[|b| - 1];
      ReplayAppend(c, a, b');
    }
  }

  /**
   * What a full-range erase leaves: all 0xFF when the size is whole sectors;
   * otherwise the service refuses it and every byte is kept.
   */
  function ErasedWhole(c: seq<byte>): (r: seq<byte>)
    ensures |c| % SECTOR_SIZE == 0 ==> r == Erased(|c|)
    ensures |c| % SECTOR_SIZE != 0 ==> r == c
  {
    Apply(c, EraseRangeCall(0, |c|))
  }

  /**
   * The calls after a full-range erase act on what that erase left: on erased
   * flash for a partition of whole sectors, on the old content otherwise.
   */
  lemma {:induction false} ReplayAfterFullErase(c: seq<byte>, ws: seq<Call>)
    ensures Replay(c, [EraseRangeCall(0, |c|)] + ws) == Replay(ErasedWhole(c), ws)
    ensures |c| % SECTOR_SIZE == 0 ==> Replay(c, [EraseRangeCall(0, |c|)] + ws) == Replay(Erased(|c|), ws)
  {
    ReplayAppend(c, [EraseRangeCall(0, |c|)], ws);
    assert Replay(c, [EraseRangeCall(0, |c|)]) == Apply(c, EraseRangeCall(0, |c|));
  }
}
