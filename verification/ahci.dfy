/** Unaligned reads from a disk through a bounce buffer that is filled sector by sector. */
module AhciDevice {

  import opened Machine

  const SECTOR := 512

  /** The end of the sector that holds the byte before `n`. */
  function RoundUp(n: nat): (r: nat)
    ensures n <= r < n + SECTOR && r % SECTOR == 0
    ensures forall end: nat {:trigger end % SECTOR} | n <= end && end % SECTOR == 0 :: r <= end
  {
    if n % SECTOR == 0 then n else n - n % SECTOR + SECTOR
  }

  class Device {
    const disk: seq<Byte>
    const cache: array<Byte>

    constructor (contents: seq<Byte>, memory: array<Byte>)
      ensures disk == contents && cache == memory
    {
      disk, cache := contents, memory;
    }

    /** The disk and the bounce buffer are whole numbers of sectors. */
    ghost predicate Valid() {
      |disk| % SECTOR == 0 && cache.Length % SECTOR == 0 && cache.Length > 0
    }

    /** The read of the port driver: all sectors that hold a byte of the request. */
    method ReadSectors(start: nat, size: nat)
      requires Valid() && start % SECTOR == 0 && RoundUp(size) <= cache.Length && start + RoundUp(size) <= |disk|
      modifies cache
      ensures forall i | 0 <= i < RoundUp(size) :: cache[i] == disk[start + i]
    {
      for i := 0 to RoundUp(size)
        invariant forall j | 0 <= j < i :: cache[j] == disk[start + j]
      {
        cache[i] := disk[start + i];
      }
    }

    /** `ahci_device_read_prepare`: the size of the next portion, and the portion copied. */
    method ReadPortion(position: nat, left: nat, buffer: array<Byte>, at: nat) returns (n: nat)
      requires Valid() && 0 < left && position + left <= |disk| && at + left <= buffer.Length && buffer != cache
      modifies cache, buffer
      ensures 0 < n <= left
      ensures forall i | 0 <= i < buffer.Length ::
        buffer[i] == if at <= i < at + n then disk[position + (i - at)] else old(buffer[i])
    {
      var offset := position % SECTOR;
      if offset != 0 {
        n := Min(SECTOR - offset, left);
      } else {
        n := left;
      }
      if n > cache.Length {
        n := cache.Length;
      }
      PortionFits(position, n, offset);
      ReadSectors(position - offset, n);
      for i := 0 to n
        modifies buffer
        invariant forall j | 0 <= j < buffer.Length ::
          buffer[j] == if at <= j < at + i then disk[position + (j - at)] else old(buffer[j])
      {
        buffer[at + i] := cache[offset + i];
      }
    }

    /** The sectors that are read cover the portion. */
    lemma PortionFits(position: nat, n: nat, offset: nat)
      requires Valid() && 0 < n && offset == position % SECTOR && position + n <= |disk| && n <= cache.Length
      requires offset != 0 ==> offset + n <= SECTOR
      ensures (position - offset) % SECTOR == 0 && offset + n <= RoundUp(n) <= cache.Length
      ensures position - offset + RoundUp(n) <= |disk|
    {
      var start := position - offset;
      assert start % SECTOR == 0 && RoundUp(offset + n) == RoundUp(n);
      assert (|disk| - start) % SECTOR == 0;
    }

    /** `ahci_device_read`: the bytes of the disk from `start` on, cut at its end; `EIO` for a
        request that starts behind it. */
    method Read(start: nat, size: nat, buffer: array<Byte>) returns (ok: bool, count: nat)
      requires Valid() && start + size < U64 && size <= buffer.Length && buffer != cache
      modifies cache, buffer
      ensures ok <==> start + size <= |disk| || start < |disk|
      ensures ok ==> count <= size && start + count <= |disk| && (count < size ==> start + count == |disk|)
      ensures ok ==> buffer[..count] == disk[start..start + count]
      ensures forall i | (if ok then count else 0) <= i < buffer.Length :: buffer[i] == old(buffer[i])
    {
      count := size;
      if start + size > |disk| {
        if start < |disk| {
          count := |disk| - start;
        } else {
          return false, 0;
        }
      }
      var done := 0;
      while count - done > 0
        invariant 0 <= done <= count
        invariant forall i | 0 <= i < buffer.Length :: buffer[i] == if i < done then disk[start + i] else old(buffer[i])
      {
        var n := ReadPortion(start + done, count - done, buffer, done);
        done := done + n;
      }
      ok := true;
    }
  }
}
