/** FileSys: the in-memory mirror of the flat file system on a FastDisk.
    Block 0 is the free map (byte i is '1' when block i holds a file); a file
    block carries its name in bytes 0..31. Mounting reads the free map and,
    for every slot 1..99 marked in use, the name stored in that block. */
module FileSystem {
  import opened JavaTypes
  import opened Blocks
  import opened FastDiskDevice

  /** fileTable.length. */
  const TableSize: nat := 100
  /** Bytes 0..31 of a file block hold its name. */
  const NameLength: nat := 32

  /** The name field of block i, as the mount loop builds it: 32 casts of a
      byte to a char. */
  function StoredName(img: seq<byte>, i: nat): (s: string)
    requires (i + 1) * BlockSize <= |img|
    ensures |s| == NameLength
    ensures forall j :: 0 <= j < NameLength ==> s[j] == ByteToChar(img[i * BlockSize + j])
  {
    Name(BlockOf(img, i)[..NameLength])
  }

  /** Mounting throws when the free map marks a slot below 100 in use that
      lies beyond the end of the disk: reading that block fails. */
  predicate MountFaults(img: seq<byte>, size: int)
    requires |img| >= BlockSize
  {
    exists i :: 1 <= i < TableSize && size <= i && img[i] == InUse
  }

  /** The table the mount loop builds from an image. */
  function MountedTable(img: seq<byte>, size: int): (t: seq<Option<string>>)
    requires 1 <= size && |img| == size * BlockSize
    requires !MountFaults(img, size)
    ensures |t| == TableSize
    ensures t[0] == None
    ensures forall i :: 1 <= i < TableSize ==> (t[i].Some? <==> img[i] == InUse)
    ensures forall i :: 1 <= i < TableSize && img[i] == InUse ==> i < size && t[i] == Some(StoredName(img, i))
  {
    seq(TableSize, i requires 0 <= i < TableSize =>
      if 1 <= i && img[i] == InUse then Some(StoredName(img, i)) else None)
  }

  /** How many of the slots lo .. hi-1 the free map marks in use. */
  function MarkedCount(img: seq<byte>, lo: nat, hi: nat): (n: nat)
    requires lo <= hi <= |img|
    ensures n <= hi - lo
    decreases hi - lo
  {
    if lo == hi then 0
    else MarkedCount(img, lo, hi - 1) + (if img[hi - 1] == InUse then 1 else 0)
  }

  /** One disk.read(i, tempBuffer) of the mount loop: afterwards the first
      32 bytes of the buffer are block i's name field. */
  method ReadName(d: FastDisk, i: nat, buf: array<byte>)
    requires d.Valid() && i < d.diskSize && buf.Length == BlockSize && buf != d.data
    modifies d`readCount, buf
    ensures Name(buf[..NameLength]) == StoredName(d.Image(), i)
    ensures d.readCount == old(d.readCount) + 1 && d.writeCount == old(d.writeCount)
  {
    var ok := d.Read(i, buf);
    assert buf[..NameLength] == BlockOf(d.Image(), i)[..NameLength] by {
      assert Head(buf[..]) == BlockOf(d.Image(), i);
    }
  }

  /** One turn of the mount loop: slot i of the table, read from block i
      when the free map marks it in use. */
  method MountSlot(d: FastDisk, i: nat, freeMap: array<byte>, tempBuffer: array<byte>)
    returns (entry: Option<string>)
    requires d.Valid() && !MountFaults(d.Image(), d.diskSize)
    requires 1 <= i < TableSize
    requires freeMap.Length == BlockSize && freeMap[..BlockSize] == BlockOf(d.Image(), 0)
    requires tempBuffer.Length == BlockSize && tempBuffer != d.data && tempBuffer != freeMap
    modifies d`readCount, tempBuffer
    ensures entry == MountedTable(d.Image(), d.diskSize)[i]
    ensures d.readCount == old(d.readCount) + (if d.Image()[i] == InUse then 1 else 0)
    ensures d.writeCount == old(d.writeCount)
  {
    assert freeMap[i] == d.Image()[i] by {
      assert freeMap[..BlockSize][i] == BlockOf(d.Image(), 0)[i];
    }
    if freeMap[i] == InUse {
      ReadName(d, i, tempBuffer);
      entry := Some(Name(tempBuffer[..NameLength]));
    } else {
      entry := None;
    }
  }

  /** Slots that the free map leaves unmarked add nothing to MarkedCount. */
  lemma {:induction false} MarkedCountUnmarked(img: seq<byte>, lo: nat, a: nat, b: nat)
    requires lo <= a <= b <= |img|
    requires forall k :: a <= k < b ==> img[k] != InUse
    ensures MarkedCount(img, lo, b) == MarkedCount(img, lo, a)
    decreases b - a
  {
    if a < b {
      MarkedCountUnmarked(img, lo, a, b - 1);
    }
  }

  /** The mount loop on a disk whose free map marks a slot beyond its end:
      block 0 and every marked block below the disk size are read, then
      the read of the first marked block past the end throws. */
  method MountUntilFault(d: FastDisk)
    requires d.Valid() && MountFaults(d.Image(), d.diskSize)
    modifies d`readCount
    ensures d.data == old(d.data) && d.Image() == old(d.Image())
    ensures d.readCount == old(d.readCount) + 1 + MarkedCount(d.Image(), 1, d.diskSize)
    ensures d.writeCount == old(d.writeCount)
  {
    ghost var img := d.Image();
    var freeMap := new byte[BlockSize](_ => 0);
    var ok := d.Read(0, freeMap);
    assert freeMap[..BlockSize] == BlockOf(img, 0);
    var tempBuffer := new byte[BlockSize](_ => 0);
    var i := 1;
    while i < TableSize
      invariant 1 <= i <= TableSize
      invariant d.Image() == img && d.writeCount == old(d.writeCount)
      invariant d.readCount == old(d.readCount) + 1 + MarkedCount(img, 1, i)
      invariant freeMap[..BlockSize] == BlockOf(img, 0)
      invariant forall k :: d.diskSize <= k < i ==> img[k] != InUse
      invariant tempBuffer.Length == BlockSize && tempBuffer != d.data && tempBuffer != freeMap
    {
      assert freeMap[i] == img[i] by {
        assert freeMap[..BlockSize][i] == BlockOf(img, 0)[i];
      }
      if freeMap[i] == InUse {
        ok := d.Read(i, tempBuffer);
        if !ok {
          MarkedCountUnmarked(img, 1, d.diskSize, i);
          return;
        }
      }
      i := i + 1;
    }
    assert false;
  }

  class FileSys {
    /** The disk holding this file system. */
    const disk: FastDisk
    /** fileTable: slot i holds the name of the file in block i, or null. */
    const fileTable: array<Option<string>>

    ghost predicate Valid()
      reads this, disk
    {
      disk.Valid() && fileTable.Length == TableSize
    }

    /** new FileSys(disk) on a disk whose free map mounts cleanly: block 0 is
        read once and each marked block once; the disk is not written. */
    constructor (d: FastDisk)
      requires d.Valid() && !MountFaults(d.Image(), d.diskSize)
      modifies d`readCount
      ensures Valid() && disk == d && fresh(fileTable)
      ensures fileTable[..] == MountedTable(d.Image(), d.diskSize)
      ensures d.data == old(d.data) && d.Image() == old(d.Image())
      ensures d.readCount == old(d.readCount) + 1 + MarkedCount(d.Image(), 1, TableSize)
      ensures d.writeCount == old(d.writeCount)
    {
      disk := d;
      fileTable := new Option<string>[TableSize](_ => None);
      new;
      ghost var img := d.Image();
      ghost var want := MountedTable(img, d.diskSize);
      var freeMap := new byte[BlockSize](_ => 0);
      var ok := d.Read(0, freeMap);
      assert freeMap[..BlockSize] == BlockOf(img, 0);
      var tempBuffer := new byte[BlockSize](_ => 0);
      var i := 1;
      while i < TableSize
        invariant 1 <= i <= TableSize
        invariant d.Image() == img && d.writeCount == old(d.writeCount)
        invariant d.readCount == old(d.readCount) + 1 + MarkedCount(img, 1, i)
        invariant freeMap[..BlockSize] == BlockOf(img, 0)
        invariant fileTable[..i] == want[..i]
        invariant forall k :: i <= k < TableSize ==> fileTable[k] == None
        invariant tempBuffer.Length == BlockSize && tempBuffer != d.data
      {
        var entry := MountSlot(d, i, freeMap, tempBuffer);
        if entry.Some? {
          fileTable[i] := entry;
        }
        assert fileTable[..i + 1] == want[..i + 1] by {
          assert fileTable[..i + 1] == fileTable[..i] + [fileTable[i]];
          assert want[..i + 1] == want[..i] + [want[i]];
        }
        i := i + 1;
      }
      assert fileTable[..] == fileTable[..TableSize];
    }

    /** new FileSys(disk), returning null where the mount throws. */
    static method Mount(d: FastDisk) returns (fs: FileSys?)
      requires d.Valid()
      modifies d`readCount
      ensures fs != null <==> !MountFaults(d.Image(), d.diskSize)
      ensures fs != null ==>
        && fresh(fs) && fs.Valid() && fs.disk == d
        && fs.fileTable[..] == MountedTable(d.Image(), d.diskSize)
      ensures d.data == old(d.data) && d.Image() == old(d.Image())
      ensures fs != null ==> d.readCount == old(d.readCount) + 1 + MarkedCount(d.Image(), 1, TableSize)
      ensures fs == null ==> d.readCount == old(d.readCount) + 1 + MarkedCount(d.Image(), 1, d.diskSize)
      ensures d.writeCount == old(d.writeCount)
    {
      if MountFaults(d.data[..], d.diskSize) {
        MountUntilFault(d);
        return null;
      }
      fs := new FileSys(d);
    }

    /** getBlockSizeOfDisk(). */
    function GetBlockSizeOfDisk(): (n: int)
      ensures n == BlockSize
    {
      disk.GetBlockSize()
    }

    /** updateFileTable(targetBlock, newFileName): only that slot changes; an
        index outside the table throws. */
    method UpdateFileTable(t: Int32, s: Option<string>) returns (ok: bool)
      requires Valid()
      modifies fileTable
      ensures ok <==> 0 <= t < TableSize
      ensures ok ==> fileTable[..] == old(fileTable[..])[t := s]
      ensures !ok ==> fileTable[..] == old(fileTable[..])
    {
      ok := 0 <= t < TableSize;
      if ok {
        fileTable[t] := s;
      }
    }
  }

  /** A freshly formatted disk of at most 100 blocks mounts cleanly, with an
      empty table. */
  lemma {:induction false} FormattedMountsEmpty(size: nat)
    requires 1 <= size <= TableSize
    ensures !MountFaults(FormatImage(size), size)
    ensures forall i :: 0 <= i < TableSize ==> MountedTable(FormatImage(size), size)[i] == None
  {
    var img := FormatImage(size);
    forall i | 1 <= i < TableSize
      ensures img[i] != InUse
    {
    }
  }
}
