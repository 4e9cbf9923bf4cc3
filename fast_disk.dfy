/** FastDisk: the synchronous block device the kernel's file system runs on.
    read and write copy one block at once and count the operation; format
    lays down the free-map pattern of the flat file system. */
module FastDiskDevice {
  import opened JavaTypes
  import opened Blocks

  /** 1 << 15: FastDisk refuses this many blocks or more. */
  const MaxBlocks: int := 0x8000

  /** The character '0' (free) and '1' (in use) of the free map. */
  const Free: byte := 48
  const InUse: byte := 49

  /** Whether new FastDisk(size) returns instead of throwing, given the
      contents of the host file DISK when one exists: Disk(int) rejects a file
      of the wrong length and a size below one, FastDisk rejects sizes from
      1 << 15 on. */
  predicate Accepts(size: Int32, image: Option<seq<byte>>) {
    && (image.Some? ==> |image.value| == size * BlockSize)
    && 1 <= size
    && size < MaxBlocks
  }

  /** The image FastDisk.format produces: bytes 1 .. size-1 are '0', every
      other byte is zero. */
  function FormatImage(size: nat): (img: seq<byte>)
    ensures |img| == size * BlockSize
  {
    seq(size * BlockSize, i => if 1 <= i < size then Free else 0)
  }

  /** When the disk has at most one block's worth of blocks, the formatted
      free map (block 0) marks every block from 1 on free and nothing else,
      and every other block is zero. */
  lemma FormatImageLayout(size: nat, b: nat, k: nat)
    requires 1 <= size <= BlockSize
    requires b < size && k < BlockSize
    ensures BlockOf(FormatImage(size), b)[k] ==
      if b == 0 && 1 <= k < size then Free else 0
  {
    assert BlockOf(FormatImage(size), b)[k] == FormatImage(size)[b * BlockSize + k];
  }

  /** The block a (possibly wrapped) Java int offset blockNumber * 512
      addresses: the product is computed in 32-bit arithmetic. */
  function Slot(b: Int32): (s: int)
    ensures 0 <= b < 0x40_0000 ==> s == b
    ensures Wrap32(b * BlockSize) == s * BlockSize
  {
    var w := Wrap32(b * BlockSize);
    SlotAligned(b);
    w / BlockSize
  }

  lemma SlotAligned(b: Int32)
    ensures Wrap32(b * BlockSize) % BlockSize == 0
  {
    var x := b * BlockSize;
    var r := Wrap32(x);
    var q := (r - x) / 0x1_0000_0000;
    assert r == x + q * 0x1_0000_0000;
    assert r == (b + q * 0x80_0000) * BlockSize;
  }

  /** No range check in read/write: block 1 << 23 wraps onto block 0. */
  lemma WrappedBlockNumber()
    ensures Slot(0x80_0000) == 0
  {
    assert Wrap32(0x80_0000 * BlockSize) == 0;
  }

  class FastDisk {
    /** DISK_SIZE, in blocks. */
    const diskSize: int
    var data: array<byte>
    var readCount: int
    var writeCount: int

    ghost predicate Valid()
      reads this
    {
      1 <= diskSize < MaxBlocks && data.Length == diskSize * BlockSize
    }

    /** The image the disk holds. */
    ghost function Image(): (img: seq<byte>)
      reads this, data
      requires Valid()
      ensures |img| == diskSize * BlockSize
    {
      data[..]
    }

    constructor (size: Int32, image: Option<seq<byte>>)
      requires Accepts(size, image)
      ensures Valid() && diskSize == size && fresh(data)
      ensures Image() == if image.Some? then image.value else FormatImage(size)
      ensures readCount == 0 && writeCount == 0
    {
      diskSize := size;
      readCount, writeCount := 0, 0;
      if image.Some? {
        var img := image.value;
        data := new byte[size * BlockSize](i requires 0 <= i < |img| => img[i]);
      } else {
        var a := FormatArray(size);
        data := a;
      }
    }

    /** new FastDisk(size), returning null where the source throws. */
    static method Create(size: Int32, image: Option<seq<byte>>) returns (d: FastDisk?)
      ensures d != null <==> Accepts(size, image)
      ensures d != null ==> fresh(d) && fresh(d.data) && d.Valid() && d.diskSize == size
      ensures d != null ==> d.Image() == (if image.Some? then image.value else FormatImage(size))
      ensures d != null ==> d.readCount == 0 && d.writeCount == 0
    {
      if Accepts(size, image) {
        d := new FastDisk(size, image);
      } else {
        d := null;
      }
    }

    /** Whether read(b, buf) / write(b, buf) return instead of throwing: the
        buffer exists, holds a block, and the wrapped offset names a block. */
    predicate TransferOk(b: Int32, buf: array?<byte>)
      reads this
    {
      buf != null && buf.Length >= BlockSize && 0 <= Slot(b) < diskSize
    }

    /** read(blockNumber, buffer). */
    method Read(b: Int32, buf: array?<byte>) returns (ok: bool)
      requires Valid() && buf != data
      modifies this`readCount, buf
      ensures ok == old(TransferOk(b, buf))
      ensures ok ==> buf[..] == FillHead(old(buf[..]), BlockOf(Image(), Slot(b)))
      ensures ok ==> readCount == old(readCount) + 1
      ensures !ok ==> readCount == old(readCount) && (buf != null ==> buf[..] == old(buf[..]))
      ensures writeCount == old(writeCount)
    {
      ok := TransferOk(b, buf);
      if ok {
        var off := Slot(b) * BlockSize;
        ArrayCopy(data, off, buf, 0, BlockSize);
        readCount := readCount + 1;
      }
    }

    /** write(blockNumber, buffer). */
    method Write(b: Int32, buf: array?<byte>) returns (ok: bool)
      requires Valid() && buf != data
      modifies this`writeCount, data
      ensures ok == TransferOk(b, buf)
      ensures ok ==> Image() == WithBlock(old(Image()), Slot(b), Head(buf[..]))
      ensures ok ==> writeCount == old(writeCount) + 1
      ensures !ok ==> writeCount == old(writeCount) && Image() == old(Image())
      ensures readCount == old(readCount)
    {
      ok := TransferOk(b, buf);
      if ok {
        var off := Slot(b) * BlockSize;
        ArrayCopy(buf, 0, data, off, BlockSize);
        writeCount := writeCount + 1;
      }
    }

    /** format(): a fresh array laid out as FormatImage. */
    method Format()
      requires Valid()
      modifies this`data
      ensures Valid() && fresh(data)
      ensures Image() == FormatImage(diskSize)
    {
      data := FormatArray(diskSize);
    }

    /** getBlockSize(). */
    function GetBlockSize(): (n: int)
      ensures n == BlockSize
    {
      BlockSize
    }

    /** beginRead is deprecated on FastDisk and always throws. */
    method BeginRead(b: Int32, buf: array?<byte>) returns (ok: bool)
      ensures !ok
    {
      ok := false;
    }

    /** beginWrite is deprecated on FastDisk and always throws. */
    method BeginWrite(b: Int32, buf: array?<byte>) returns (ok: bool)
      ensures !ok
    {
      ok := false;
    }
  }

  /** The body of FastDisk.format: a zeroed array, then '0' at 1 .. size-1. */
  method FormatArray(size: nat) returns (a: array<byte>)
    ensures fresh(a) && a[..] == FormatImage(size)
  {
    a := new byte[size * BlockSize](_ => 0);
    var i := 1;
    while i < size
      invariant 1 <= i && (size >= 1 ==> i <= size)
      invariant forall k :: 0 <= k < a.Length ==> a[k] == if 1 <= k < i then Free else 0
    {
      a[i] := Free;
      i := i + 1;
    }
  }

  /** write(b, x) followed by read(b, y) hands back the block x supplied. */
  method WriteThenRead(d: FastDisk, b: Int32, x: array<byte>, y: array<byte>) returns (ok: bool)
    requires d.Valid() && x != d.data && y != d.data && x != y
    modifies d`writeCount, d`readCount, d.data, y
    ensures ok == (d.TransferOk(b, x) && d.TransferOk(b, y))
    ensures ok ==> Head(y[..]) == Head(x[..])
    ensures ok ==> d.readCount == old(d.readCount) + 1 && d.writeCount == old(d.writeCount) + 1
  {
    ok := d.TransferOk(b, x) && d.TransferOk(b, y);
    if ok {
      var w := d.Write(b, x);
      var r := d.Read(b, y);
      BlockOfWithBlock(old(d.Image()), Slot(b), Head(x[..]), Slot(b));
    }
  }
}
