/**
 * The byte FIFO of `ring_buffer_t`: a fixed-capacity buffer of `totalSize`
 * bytes with a write index `wp`, a read index `rp` and a fill count
 * `dataCnt`; the stored bytes start at `rp` and run on, wrapping at the end of
 * the buffer, for `dataCnt` bytes. Writes and reads that cross the end are
 * done as two copies.
 */
module RingBuffers {
  import opened Common

  const RETURN_OK: int := 0
  const RETURN_ERR: int := -1

  /**
   * `p + k`, brought back into `[0, n)` by one subtraction, as the source
   * advances `wp` and `rp` (`x += k; if (x >= n) x -= n;`).
   */
  function Wrap(p: nat, k: nat, n: nat): (r: nat)
    requires k <= n && (p < n || p == n == 0)
    ensures n > 0 ==> r < n
    ensures r == p + k || r == p + k - n
  {
    if p + k >= n then p + k - n else p + k
  }

  /** The single subtraction is enough: the advanced index is the sum modulo the capacity. */
  lemma WrapIsMod(p: nat, k: nat, n: nat)
    requires k <= n && p < n
    ensures Wrap(p, k, n) == (p + k) % n
  {
    var r := Wrap(p, k, n);
    if p + k >= n {
      assert p + k == 1 * n + r;
    } else {
      assert p + k == 0 * n + r;
    }
  }

  /** Advancing by `a` and then by `b` is advancing by `a + b`. */
  lemma WrapAdd(p: nat, a: nat, b: nat, n: nat)
    requires p < n && a + b <= n
    ensures Wrap(Wrap(p, a, n), b, n) == Wrap(p, a + b, n)
  {
  }

  class RingBuffer {
    var base: array?<byte>     // base_addr
    var totalSize: uint32      // total_size
    var hasLock: bool          // lock != NULL
    var wp: uint32
    var rp: uint32
    var dataCnt: uint32        // data_cnt

    /**
     * The fields' relation between calls. `totalSize` stays below 2^31, so
     * `wp + size` and `rp + size` never wrap in 32 bits and every count fits
     * the `int` the functions return.
     */
    ghost predicate Valid()
      reads this
    {
      && totalSize < 0x8000_0000
      && (base != null ==> base.Length == totalSize)
      && dataCnt <= totalSize
      && (totalSize == 0 ==> wp == 0 && rp == 0)
      && (totalSize > 0 ==> wp < totalSize && rp < totalSize && wp == Wrap(rp, dataCnt, totalSize))
    }

    /** The stored bytes, oldest first: `dataCnt` bytes from `rp` on, wrapping at the end. */
    ghost function Contents(): (r: seq<byte>)
      requires Valid() && base != null
      reads this, base
      ensures |r| == dataCnt
    {
      if totalSize == 0 then [] else Stored(base[..], rp, dataCnt)
    }

    /** A `ring_buffer_t` in static storage: every field zero. */
    constructor ()
      ensures Valid() && base == null && !hasLock
      ensures totalSize == 0 && wp == 0 && rp == 0 && dataCnt == 0
    {
      base := null;
      totalSize := 0;
      hasLock := false;
      wp := 0;
      rp := 0;
      dataCnt := 0;
    }

    /**
     * `ring_buffer_init`; `mutexCreated` and `mallocOk` are the outcomes of
     * `xSemaphoreCreateMutex` and `malloc`. A failed allocation leaves
     * `base_addr` NULL and the counters as they were.
     */
    method Init(size: uint32, mutexCreated: bool, mallocOk: bool) returns (rc: int)
      requires Valid() && size < 0x8000_0000
      modifies this
      ensures Valid() && hasLock == mutexCreated
      ensures !mutexCreated ==> rc == RETURN_ERR && base == old(base)
      ensures mutexCreated && !mallocOk ==> rc == RETURN_ERR && base == null
      ensures !(mutexCreated && mallocOk) ==>
                totalSize == old(totalSize) && wp == old(wp) && rp == old(rp) && dataCnt == old(dataCnt)
      ensures mutexCreated && mallocOk ==>
                && rc == RETURN_OK && base != null && fresh(base)
                && totalSize == size && dataCnt == 0 && wp == 0 && rp == 0
                && Contents() == []
    {
      hasLock := mutexCreated;
      if !mutexCreated {
        return RETURN_ERR;
      }
      if !mallocOk {
        base := null;
        return RETURN_ERR;
      }
      base := new byte[size];
      totalSize := size;
      dataCnt := 0;
      wp := 0;
      rp := 0;
      rc := RETURN_OK;
    }

    /**
     * `ring_buffer_write`: refused, with nothing changed, when the bytes do not
     * fit; otherwise they are stored after the last byte, wrapping at the end.
     */
    method Write(data: seq<byte>) returns (rc: int)
      requires Valid() && base != null && hasLock
      requires dataCnt + |data| < UINT32_RANGE
      modifies this, base
      ensures Valid() && base == old(base) && totalSize == old(totalSize) && hasLock
      ensures old(dataCnt) + |data| > totalSize ==>
                rc == RETURN_ERR && wp == old(wp) && rp == old(rp) && dataCnt == old(dataCnt) &&
                base[..] == old(base[..])
      ensures old(dataCnt) + |data| <= totalSize ==>
                && rc == RETURN_OK
                && Contents() == old(Contents()) + data
                && rp == old(rp) && dataCnt == old(dataCnt) + |data| && wp == Wrap(old(wp), |data|, totalSize)
                // the bytes land at base[(wp + i) mod total_size], and no other byte changes
                && (forall i :: 0 <= i < |data| ==> base[Wrap(old(wp), i, totalSize)] == data[i])
                && (forall k :: |data| <= k < totalSize ==>
                      base[Wrap(old(wp), k, totalSize)] == old(base[..])[Wrap(old(wp), k, totalSize)])
    {
      if dataCnt + |data| > totalSize {
        return RETURN_ERR;
      }
      ghost var before := base[..];
      ghost var contents := Contents();
      if wp + |data| > totalSize {
        var first := totalSize - wp;
        CopyInto(base, wp, data[..first]);
        CopyInto(base, 0, data[first..]);
      } else {
        CopyInto(base, wp, data);
      }
      ghost var after := base[..];
      assert after == Placement(before, wp, data);
      var next := wp + |data|;
      if next >= totalSize {
        next := next - totalSize;
      }
      if totalSize > 0 {
        WrapAdd(rp, dataCnt, |data|, totalSize);
        Placed(before, after, wp, data);
        StoredAfter(before, after, rp, dataCnt, wp, data, contents);
      }
      wp, dataCnt := next, dataCnt + |data|;
      rc := RETURN_OK;
    }

    /**
     * `ring_buffer_read`: refused when empty; otherwise the oldest
     * `n = min(size, dataCnt)` bytes are removed and returned (`out` is what
     * is copied to the caller's buffer), and so is `n`.
     */
    method Read(size: uint32) returns (rc: int, out: seq<byte>)
      requires Valid() && base != null && hasLock
      modifies this
      ensures Valid() && base == old(base) && totalSize == old(totalSize) && hasLock
      ensures old(dataCnt) == 0 ==>
                rc == RETURN_ERR && wp == old(wp) && rp == old(rp) && dataCnt == 0 && out == []
      ensures old(dataCnt) > 0 ==>
                var n := if size >= old(dataCnt) then old(dataCnt) else size;
                && rc == n
                && out == old(Contents())[..n]
                && Contents() == old(Contents())[n..]
                && wp == old(wp) && rp == Wrap(old(rp), n, totalSize) && dataCnt == old(dataCnt) - n
    {
      if dataCnt == 0 {
        return RETURN_ERR, [];
      }
      ghost var a := base[..];
      assert old(Contents()) == Stored(a, rp, dataCnt);
      var n: uint32 := size;
      if size >= dataCnt {
        n := dataCnt;
      }
      // the drain branch and the partial branch copy the same way
      if rp + n > totalSize {
        var first := totalSize - rp;
        out := base[rp..] + base[..n - first];
      } else {
        out := base[rp..rp + n];
      }
      var next := rp + n;
      if next >= totalSize {
        next := next - totalSize;
      }
      ReadStep(a, rp, dataCnt, n, out, next);
      rp, dataCnt := next, dataCnt - n;
      assert Contents() == Stored(a, next, dataCnt);
      rc := n;
    }

    /** `ring_buffer_get_size`: the number of stored bytes. */
    function GetSize(): (r: uint32)
      requires Valid()
      reads this, base
      ensures r <= totalSize
      ensures base != null ==> r == |Contents()|
    {
      dataCnt
    }

    /** `ring_buffer_get_leftsize`: the room left; together with the stored bytes it is the capacity. */
    function GetLeftSize(): (r: uint32)
      requires Valid()
      reads this, base
      ensures r + GetSize() == totalSize
      ensures base != null ==> r == totalSize - |Contents()|
    {
      totalSize - dataCnt
    }

    /**
     * `ring_buffer_clear`: refused without a lock; otherwise the first
     * `dataCnt` bytes from the start of the buffer (not from `rp`) are zeroed
     * and the buffer is emptied.
     */
    method Clear() returns (rc: int)
      requires Valid() && (hasLock ==> base != null)
      modifies this, base
      ensures Valid() && base == old(base) && totalSize == old(totalSize) && hasLock == old(hasLock)
      ensures !hasLock ==>
                rc == RETURN_ERR && wp == old(wp) && rp == old(rp) && dataCnt == old(dataCnt) &&
                (base != null ==> base[..] == old(base[..]))
      ensures hasLock ==>
                && rc == RETURN_OK && wp == 0 && rp == 0 && dataCnt == 0 && Contents() == []
                && base[..] == Zeros(old(dataCnt)) + old(base[dataCnt..])
    {
      if !hasLock {
        return RETURN_ERR;
      }
      forall i | 0 <= i < dataCnt {
        base[i] := 0;
      }
      assert base[..] == Zeros(old(dataCnt)) + old(base[dataCnt..]);
      dataCnt := 0;
      wp := 0;
      rp := 0;
      rc := RETURN_OK;
    }

    /** `ring_buffer_free`: refused without a lock; otherwise the storage is released and the counters reset. */
    method Free() returns (rc: int)
      requires Valid()
      modifies this
      ensures Valid() && totalSize == old(totalSize) && hasLock == old(hasLock)
      ensures !hasLock ==>
                rc == RETURN_ERR && base == old(base) && wp == old(wp) && rp == old(rp) && dataCnt == old(dataCnt)
      ensures hasLock ==> rc == RETURN_OK && base == null && wp == 0 && rp == 0 && dataCnt == 0
    {
      if !hasLock {
        return RETURN_ERR;
      }
      if base != null {
        base := null;
      }
      dataCnt := 0;
      wp := 0;
      rp := 0;
      rc := RETURN_OK;
    }
  }

  /** The stored bytes of a buffer image `a`: `cnt` bytes from `rp`, wrapping at the end. */
  function Stored(a: seq<byte>, rp: nat, cnt: nat): (r: seq<byte>)
    requires rp < |a| && cnt <= |a|
    ensures |r| == cnt
  {
    seq(cnt, i requires 0 <= i < cnt => a[Wrap(rp, i, |a|)])
  }

  /** `a` with `d` copied in at `at` (a `memcpy` into the buffer). */
  function PutAt(a: seq<byte>, at: nat, d: seq<byte>): (r: seq<byte>)
    requires at + |d| <= |a|
    ensures |r| == |a|
  {
    seq(|a|, i requires 0 <= i < |a| => if at <= i < at + |d| then d[i - at] else a[i])
  }

  /** `memcpy(dst + at, src, |src|)`. */
  method CopyInto(dst: array<byte>, at: nat, src: seq<byte>)
    requires at + |src| <= dst.Length
    modifies dst
    ensures dst[..] == PutAt(old(dst[..]), at, src)
  {
    forall i | 0 <= i < |src| {
      dst[at + i] := src[i];
    }
    assert dst[..] == PutAt(old(dst[..]), at, src);
  }

  /** The buffer after the copies of `ring_buffer_write`: one copy, or two when the bytes cross the end. */
  function Placement(a: seq<byte>, wp: nat, d: seq<byte>): (r: seq<byte>)
    requires wp <= |a| && |d| <= |a|
    ensures |r| == |a|
  {
    if wp + |d| > |a| then PutAt(PutAt(a, wp, d[..|a| - wp]), 0, d[|a| - wp..]) else PutAt(a, wp, d)
  }

  /** The copies of `ring_buffer_write` put `d[i]` at slot `wp + i` modulo the capacity and leave the other slots. */
  lemma Placed(before: seq<byte>, after: seq<byte>, wp: nat, d: seq<byte>)
    requires wp < |before| && |d| <= |before| && after == Placement(before, wp, d)
    ensures forall i :: 0 <= i < |d| ==> after[Wrap(wp, i, |before|)] == d[i]
    ensures forall k :: |d| <= k < |before| ==> after[Wrap(wp, k, |before|)] == before[Wrap(wp, k, |before|)]
  {
    var n := |before|;
    if wp + |d| > n {
      var mid := PutAt(before, wp, d[..n - wp]);
      forall i | 0 <= i < |d| ensures after[Wrap(wp, i, n)] == d[i] {
        if i < n - wp {
          assert mid[wp + i] == d[i];
        }
      }
    }
  }

  /**
   * The copies of `ring_buffer_read` hand out the first `n` stored bytes, and
   * the bytes from the advanced read index are the rest.
   */
  lemma ReadStep(a: seq<byte>, rp: nat, cnt: nat, n: nat, out: seq<byte>, next: nat)
    requires rp < |a| && n <= cnt <= |a|
    requires out == if rp + n > |a| then a[rp..] + a[..n - (|a| - rp)] else a[rp..rp + n]
    requires next == Wrap(rp, n, |a|)
    ensures out == Stored(a, rp, cnt)[..n]
    ensures next < |a| && Stored(a, next, cnt - n) == Stored(a, rp, cnt)[n..]
    ensures Wrap(rp, cnt, |a|) == Wrap(next, cnt - n, |a|)
  {
    CopiedOut(a, rp, cnt, n, out);
    RemovedFront(a, rp, cnt, n, Stored(a, rp, cnt));
  }

  /** The copies of `ring_buffer_read` hand out the first `n` stored bytes. */
  lemma CopiedOut(a: seq<byte>, rp: nat, cnt: nat, n: nat, out: seq<byte>)
    requires rp < |a| && n <= cnt <= |a|
    requires out == if rp + n > |a| then a[rp..] + a[..n - (|a| - rp)] else a[rp..rp + n]
    ensures out == Stored(a, rp, cnt)[..n]
  {
  }

  /** After bytes are placed from `wp = rp + cnt`, the stored bytes are the old ones followed by the new. */
  lemma StoredAfter(before: seq<byte>, after: seq<byte>, rp: nat, cnt: nat, wp: nat, data: seq<byte>,
                    contents: seq<byte>)
    requires |after| == |before| && rp < |before| && cnt + |data| <= |before|
    requires wp == Wrap(rp, cnt, |before|) && wp < |before|
    requires forall i :: 0 <= i < |data| ==> after[Wrap(wp, i, |before|)] == data[i]
    requires forall k :: |data| <= k < |before| ==> after[Wrap(wp, k, |before|)] == before[Wrap(wp, k, |before|)]
    requires contents == Stored(before, rp, cnt)
    ensures Stored(after, rp, cnt + |data|) == contents + data
  {
    var n := |before|;
    forall i | 0 <= i < cnt + |data|
      ensures Stored(after, rp, cnt + |data|)[i] == (contents + data)[i]
    {
      if i < cnt {
        var k := n - cnt + i;
        assert Wrap(wp, k, n) == Wrap(rp, i, n);
        assert after[Wrap(wp, k, n)] == before[Wrap(wp, k, n)];
      } else {
        var j := i - cnt;
        assert Wrap(wp, j, n) == Wrap(rp, i, n);
        assert after[Wrap(wp, j, n)] == data[j];
      }
    }
  }

  /** Taking `n` bytes off the front leaves the stored bytes from the advanced read index. */
  lemma RemovedFront(a: seq<byte>, rp: nat, cnt: nat, n: nat, contents: seq<byte>)
    requires rp < |a| && n <= cnt <= |a|
    requires contents == Stored(a, rp, cnt)
    ensures Wrap(rp, n, |a|) < |a|
    ensures Stored(a, Wrap(rp, n, |a|), cnt - n) == contents[n..]
    ensures Wrap(rp, cnt, |a|) == Wrap(Wrap(rp, n, |a|), cnt - n, |a|)
  {
    WrapAdd(rp, n, cnt - n, |a|);
  }
}
