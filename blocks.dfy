/** The disk image as a flat byte sequence of 512-byte blocks, and the two
    block-granular operations every disk model is specified with. */
module Blocks {
  import opened JavaTypes

  /** Disk.BLOCK_SIZE. */
  const BlockSize: nat := 512

  /** Block b of an image. */
  function BlockOf(img: seq<byte>, b: nat): (blk: seq<byte>)
    requires (b + 1) * BlockSize <= |img|
    ensures |blk| == BlockSize
    ensures forall k :: 0 <= k < BlockSize ==> blk[k] == img[b * BlockSize + k]
  {
    img[b * BlockSize..(b + 1) * BlockSize]
  }

  /** The image with block b replaced by blk. */
  function WithBlock(img: seq<byte>, b: nat, blk: seq<byte>): (r: seq<byte>)
    requires (b + 1) * BlockSize <= |img| && |blk| == BlockSize
    ensures |r| == |img|
  {
    img[..b * BlockSize] + blk + img[(b + 1) * BlockSize..]
  }

  /** Reading back a block that was just written yields what was written,
      and every other block is untouched. */
  lemma BlockOfWithBlock(img: seq<byte>, b: nat, blk: seq<byte>, c: nat)
    requires (b + 1) * BlockSize <= |img| && |blk| == BlockSize
    requires (c + 1) * BlockSize <= |img|
    ensures BlockOf(WithBlock(img, b, blk), c) == if b == c then blk else BlockOf(img, c)
  {
    var r := WithBlock(img, b, blk);
    if b == c {
      assert r[b * BlockSize..(b + 1) * BlockSize] == blk;
    } else if c < b {
      assert r[..b * BlockSize] == img[..b * BlockSize];
    } else {
      assert r[(b + 1) * BlockSize..] == img[(b + 1) * BlockSize..];
    }
  }

  /** Byte-level view of WithBlock: only the bytes of block b change. */
  lemma WithBlockAt(img: seq<byte>, b: nat, blk: seq<byte>, k: nat)
    requires (b + 1) * BlockSize <= |img| && |blk| == BlockSize
    requires k < |img|
    ensures WithBlock(img, b, blk)[k] ==
      if b * BlockSize <= k < (b + 1) * BlockSize then blk[k - b * BlockSize] else img[k]
  {
  }

  /** Writing a block back with its own contents changes nothing. */
  lemma WithOwnBlock(img: seq<byte>, b: nat)
    requires (b + 1) * BlockSize <= |img|
    ensures WithBlock(img, b, BlockOf(img, b)) == img
  {
    assert img == img[..b * BlockSize] + img[b * BlockSize..(b + 1) * BlockSize] + img[(b + 1) * BlockSize..];
  }

  /** A second write to the same block hides the first. */
  lemma WithBlockTwice(img: seq<byte>, b: nat, x: seq<byte>, y: seq<byte>)
    requires (b + 1) * BlockSize <= |img| && |x| == BlockSize && |y| == BlockSize
    ensures WithBlock(WithBlock(img, b, x), b, y) == WithBlock(img, b, y)
  {
    var r1 := WithBlock(WithBlock(img, b, x), b, y);
    var r2 := WithBlock(img, b, y);
    forall k | 0 <= k < |img| ensures r1[k] == r2[k] {
      WithBlockAt(WithBlock(img, b, x), b, y, k);
      WithBlockAt(img, b, x, k);
      WithBlockAt(img, b, y, k);
    }
  }

  /** Writes to different blocks commute. */
  lemma WithBlockCommute(img: seq<byte>, b: nat, x: seq<byte>, c: nat, y: seq<byte>)
    requires (b + 1) * BlockSize <= |img| && |x| == BlockSize
    requires (c + 1) * BlockSize <= |img| && |y| == BlockSize
    requires b != c
    ensures WithBlock(WithBlock(img, b, x), c, y) == WithBlock(WithBlock(img, c, y), b, x)
  {
    var r1 := WithBlock(WithBlock(img, b, x), c, y);
    var r2 := WithBlock(WithBlock(img, c, y), b, x);
    forall k | 0 <= k < |img| ensures r1[k] == r2[k] {
      WithBlockAt(WithBlock(img, b, x), c, y, k);
      WithBlockAt(img, b, x, k);
      WithBlockAt(WithBlock(img, c, y), b, x, k);
      WithBlockAt(img, c, y, k);
    }
  }

  /** The 512-byte transfer buffer as the disk sees it: its first block,
      with the bytes after it untouched by every transfer. */
  function Head(buf: seq<byte>): (h: seq<byte>)
    requires |buf| >= BlockSize
    ensures |h| == BlockSize
  {
    buf[..BlockSize]
  }

  /** A caller buffer after the disk reads block contents into it: the first
      BlockSize bytes replaced, the tail kept. */
  function FillHead(buf: seq<byte>, blk: seq<byte>): (r: seq<byte>)
    requires |buf| >= BlockSize && |blk| == BlockSize
    ensures |r| == |buf| && Head(r) == blk && r[BlockSize..] == buf[BlockSize..]
  {
    blk + buf[BlockSize..]
  }

  /** System.arraycopy(src, srcPos, dst, dstPos, len) between two distinct
      arrays, with the bounds the callers establish. */
  method ArrayCopy(src: array<byte>, srcPos: nat, dst: array<byte>, dstPos: nat, len: nat)
    requires src != dst
    requires srcPos + len <= src.Length && dstPos + len <= dst.Length
    modifies dst
    ensures dst[..] == old(dst[..dstPos]) + src[srcPos..srcPos + len] + old(dst[dstPos + len..])
  {
    var k := 0;
    while k < len
      invariant 0 <= k <= len
      invariant forall i :: 0 <= i < dst.Length && !(dstPos <= i < dstPos + k) ==> dst[i] == old(dst[i])
      invariant forall i :: dstPos <= i < dstPos + k ==> dst[i] == src[srcPos + (i - dstPos)]
    {
      dst[dstPos + k] := src[srcPos + k];
      k := k + 1;
    }
    ghost var want := old(dst[..dstPos]) + src[srcPos..srcPos + len] + old(dst[dstPos + len..]);
    assert |want| == dst.Length;
    forall i | 0 <= i < dst.Length ensures dst[i] == want[i] {
      if i < dstPos {
      } else if i < dstPos + len {
        assert want[i] == src[srcPos + (i - dstPos)];
      } else {
        assert want[i] == old(dst[i]);
      }
    }
    assert dst[..] == want;
  }
}
