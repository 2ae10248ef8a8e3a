/** The byte stream over a sector-addressed disk. */
module DiskIO {
  import opened Machine

  const SECTOR_SIZE := 512

  /** A disk's contents; positions past the image read as 0. */
  datatype Disk = Disk(image: seq<uint8>) {
    function ByteAt(pos: nat): uint8 {
      if pos < |image| then image[pos] else 0
    }

    function Slice(pos: nat, n: nat): (bytes: seq<uint8>)
      ensures |bytes| == n
    {
      seq<uint8>(n, i requires 0 <= i < n => ByteAt(pos + i))
    }

    lemma SliceSplit(pos: nat, n: nat, k: nat)
      ensures Slice(pos, n + k) == Slice(pos, n) + Slice(pos + n, k)
    {
    }

    lemma SliceOfSlice(pos: nat, n: nat, offset: nat, k: nat)
      requires offset + k <= n
      ensures Slice(pos, n)[offset..offset + k] == Slice(pos + offset, k)
    {
    }

    /** `disk_read_block` of one sector. */
    method ReadBlock(sector: nat, buf: array<uint8>) returns (status: int)
      requires buf.Length == SECTOR_SIZE
      modifies buf
      ensures status == 0 && buf[..] == Slice(sector * SECTOR_SIZE, SECTOR_SIZE)
    {
      for i := 0 to SECTOR_SIZE
        invariant forall k :: 0 <= k < i ==> buf[k] == ByteAt(sector * SECTOR_SIZE + k)
      {
        buf[i] := ByteAt(sector * SECTOR_SIZE + i);
      }
      status := 0;
    }
  }

  /** A buffer after `bytes` have been stored at position `at`. */
  ghost function Written(s: seq<uint8>, at: nat, bytes: seq<uint8>): (r: seq<uint8>)
    requires at + |bytes| <= |s|
    ensures |r| == |s|
  {
    s[..at] + bytes + s[at + |bytes|..]
  }

  lemma WrittenTwice(s: seq<uint8>, at: nat, a: seq<uint8>, b: seq<uint8>)
    requires at + |a| + |b| <= |s|
    ensures Written(Written(s, at, a), at + |a|, b) == Written(s, at, a + b)
  {
    var r, l := Written(Written(s, at, a), at + |a|, b), Written(s, at, a + b);
    forall i | 0 <= i < |s| ensures r[i] == l[i] {
    }
  }

  /** The copy loop of `disk_stream_read`. */
  method CopyBytes(buf: array<uint8>, offset: nat, out: array<uint8>, at: nat, n: nat)
    requires buf != out && offset + n <= buf.Length && at + n <= out.Length
    modifies out
    ensures out[..] == Written(old(out[..]), at, buf[offset..offset + n])
  {
    for i := 0 to n
      invariant forall k :: 0 <= k < out.Length ==>
        out[k] == if at <= k < at + i then buf[offset + (k - at)] else old(out[k])
    {
      out[at + i] := buf[offset + i];
    }
  }

  class DiskStream {
    var pos: int
    const disk: Disk

    constructor (disk: Disk)
      ensures pos == 0 && this.disk == disk
    {
      this.disk := disk;
      pos := 0;
    }

    /** `disk_stream_seek`. */
    method Seek(pos: int) returns (status: int)
      modifies this
      ensures status == 0 && this.pos == pos
    {
      this.pos := pos;
      status := 0;
    }

    /** `disk_stream_read` into out[at..]: one sector at a time, calling itself for the rest. A request that
        ends on a sector boundary makes one more, zero-length, call. */
    method Read(out: array<uint8>, at: nat, total: nat) returns (status: int)
      requires 0 <= pos && pos + total + SECTOR_SIZE < 0x8000_0000 && at + total <= out.Length
      modifies this, out
      ensures status == 0 && pos == old(pos) + total
      ensures out[..] == Written(old(out[..]), at, disk.Slice(old(pos), total))
      decreases total
    {
      hide Written;
      var sector, offset, read := pos / SECTOR_SIZE, pos % SECTOR_SIZE, total;
      var overflow := offset + read >= SECTOR_SIZE;
      var buf := new uint8[SECTOR_SIZE];
      if overflow {
        read := read - (offset + read - SECTOR_SIZE);
      }
      status := disk.ReadBlock(sector, buf);
      CopyBytes(buf, offset, out, at, read);
      assert buf[offset..offset + read] == disk.Slice(pos, read) by {
        disk.SliceOfSlice(sector * SECTOR_SIZE, SECTOR_SIZE, offset, read);
        assert buf[offset..offset + read] == buf[..][offset..offset + read];
      }
      pos := pos + read;
      if overflow {
        disk.SliceSplit(old(pos), read, total - read);
        WrittenTwice(old(out[..]), at, disk.Slice(old(pos), read), disk.Slice(old(pos) + read, total - read));
        status := Read(out, at + read, total - read);
      }
    }
  }
}
