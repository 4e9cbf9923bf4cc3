/** Properties of the file handlers over whole states: the agreement between
    the file table, the free map and the name fields that mounting
    establishes and the handlers keep, and what handlers called one after
    another do. */
module KernelFsProps {
  import opened JavaTypes
  import opened Blocks
  import opened FastDiskDevice
  import opened FileSystem
  import opened KernelFs

  /** Slot i of the table and block i of the image agree: a named slot lies
      on the disk, its name fits the 32-byte field and trims to the text the
      block's name field holds. */
  predicate Holds(img: seq<byte>, table: seq<Option<string>>, size: int, i: nat)
    requires |img| == size * BlockSize && |table| == TableSize && i < TableSize
  {
    table[i].Some? ==>
      && i < size
      && |table[i].value| <= NameLength
      && Trim(table[i].value) == Trim(StoredName(img, i))
  }

  /** The file system as the mount leaves it on a disk of at most 100
      blocks: slot 0 (the free map) is unnamed, a slot is named exactly when
      the free map marks it '1', and every named slot holds. */
  predicate Consistent(s: FsState, size: int) {
    && Shaped(s, size) && size <= TableSize
    && s.table[0] == None
    && (forall i :: 1 <= i < TableSize ==> (s.table[i].Some? <==> s.image[i] == InUse))
    && (forall i :: 1 <= i < TableSize ==> Holds(s.image, s.table, size, i))
  }

  lemma NameAppend(a: seq<byte>, b: seq<byte>)
    ensures Name(a + b) == Name(a) + Name(b)
  {
  }

  /** A name field holding p followed by zero bytes trims like p. */
  lemma PaddedName(p: seq<byte>, blk: seq<byte>)
    requires |p| <= NameLength && |blk| == BlockSize
    requires blk[..|p|] == p
    requires forall k :: |p| <= k < NameLength ==> blk[k] == 0
    ensures Trim(Name(blk[..NameLength])) == Trim(Name(p))
  {
    var z := Zeros(NameLength - |p|);
    assert blk[..NameLength] == p + z;
    NameAppend(p, z);
    NameOfZerosTrimmed(NameLength - |p|);
    TrimPadded(Name(p), Name(z));
  }

  /** Mounting a disk of at most 100 blocks whose free map mounts cleanly
      gives a consistent file system. */
  lemma MountConsistent(img: seq<byte>, size: int, readCount: int, writeCount: int)
    requires 1 <= size <= TableSize && |img| == size * BlockSize
    requires !MountFaults(img, size)
    ensures Consistent(FsState(img, MountedTable(img, size), readCount, writeCount), size)
  {
    var table := MountedTable(img, size);
    forall i | 1 <= i < TableSize
      ensures Holds(img, table, size, i)
    {
      if table[i].Some? {
        assert table[i].value == StoredName(img, i);
      }
    }
  }

  /** A consistent state never makes findTargetBlock or the duplicate check
      of doCreateFile throw. */
  lemma ConsistentNoFault(s: FsState, size: int, name: string)
    requires Consistent(s, size)
    ensures !FindTarget(s.table, size, name).LookupFault?
    ensures DupFrom(FreeMap(s), s.table, name, 1) != DupFault
    ensures !FreeFrom(FreeMap(s), size, 1).FreeFault?
  {
    var fm := FreeMap(s);
    DupFaultWitness(fm, s.table, name, 1);
    forall j | 1 <= j < TableSize && fm[j] == InUse
      ensures s.table[j].Some?
    {
      assert s.image[j] == InUse;
    }
  }

  /** A DupFault comes from a slot marked in use with no name. */
  lemma {:induction false} DupFaultWitness(fm: seq<byte>, table: seq<Option<string>>, name: string, i: nat)
    requires |fm| == BlockSize && |table| == TableSize && 1 <= i <= TableSize
    ensures DupFrom(fm, table, name, i) == DupFault ==>
      exists j :: i <= j < TableSize && fm[j] == InUse && table[j].None?
    decreases TableSize - i
  {
    if i < TableSize && !(fm[i] == InUse && table[i].None?) {
      DupFaultWitness(fm, table, name, i + 1);
    }
  }

  /** The outcome of a successful doCreateFile: the first free block, or
      block 1 when none is free, gets the name. */
  function NewBlock(s: FsState, size: int): nat
    requires Shaped(s, size)
  {
    CreateTarget(FreeFrom(FreeMap(s), size, 1))
  }

  /** The image doCreateFile leaves when it returns 0 after putting p in
      block t. */
  lemma CreatedImage(s: FsState, size: int, p: seq<byte>)
    requires Consistent(s, size)
    requires Create(s, size, Some(p)).0 == Returned(0)
    ensures |p| <= NameLength && 1 <= NewBlock(s, size) < size
    ensures DupFrom(FreeMap(s), s.table, Name(p), 1) == NoDuplicate
    ensures Create(s, size, Some(p)).1.image ==
      WithBlock(WithBlock(s.image, NewBlock(s, size), NameBlock(p)), 0, FreeMap(s)[NewBlock(s, size) := InUse])
    ensures Create(s, size, Some(p)).1.table == s.table[NewBlock(s, size) := Some(Name(p))]
  {
    ConsistentNoFault(s, size, Name(p));
    var t := NewBlock(s, size);
    var s1 := s.(readCount := s.readCount + 1);
    assert Create(s, size, Some(p)) == CreateAt(s1, size, p, t);
  }

  /** doCreateFile keeps the file system consistent. */
  lemma CreatePreserves(s: FsState, size: int, pathName: Option<seq<byte>>)
    requires Consistent(s, size)
    ensures Consistent(Create(s, size, pathName).1, size)
  {
    if Create(s, size, pathName).0 == Returned(0) {
      CreatedConsistent(s, size, pathName.value);
    } else {
      if pathName.Some? {
        ConsistentNoFault(s, size, Name(pathName.value));
      }
      CreateFailsCleanly(s, size, pathName);
    }
  }

  /** On a disk of at most 100 blocks, a doCreateFile whose duplicate check
      does not throw writes nothing unless it returns 0. */
  lemma CreateFailsCleanly(s: FsState, size: int, pathName: Option<seq<byte>>)
    requires Shaped(s, size) && size <= TableSize
    requires pathName.Some? ==> DupFrom(FreeMap(s), s.table, Name(pathName.value), 1) != DupFault
    requires Create(s, size, pathName).0 != Returned(0)
    ensures Create(s, size, pathName).1.image == s.image
    ensures Create(s, size, pathName).1.table == s.table
  {
    if pathName.Some? && |pathName.value| <= NameLength {
      var p := pathName.value;
      if DupFrom(FreeMap(s), s.table, Name(p), 1) == NoDuplicate {
        var t := NewBlock(s, size);
        var s1 := s.(readCount := s.readCount + 1);
        assert Create(s, size, pathName) == CreateAt(s1, size, p, t);
      }
    }
  }

  lemma CreatedConsistent(s: FsState, size: int, p: seq<byte>)
    requires Consistent(s, size)
    requires Create(s, size, Some(p)).0 == Returned(0)
    ensures Consistent(Create(s, size, Some(p)).1, size)
  {
    CreatedImage(s, size, p);
    var t := NewBlock(s, size);
    var img := WithBlock(WithBlock(s.image, t, NameBlock(p)), 0, FreeMap(s)[t := InUse]);
    var table := s.table[t := Some(Name(p))];
    forall i | 1 <= i < TableSize
      ensures (table[i].Some? <==> img[i] == InUse) && Holds(img, table, size, i)
    {
      CreatedSlot(s.image, s.table, size, t, p, i);
    }
  }

  /** Slot i after doCreateFile put p in block t. */
  lemma CreatedSlot(img: seq<byte>, table: seq<Option<string>>, size: int, t: nat, p: seq<byte>, i: nat)
    requires 1 <= size && |img| == size * BlockSize && |table| == TableSize
    requires 1 <= t < size && t < TableSize && |p| <= NameLength && 1 <= i < TableSize
    requires Holds(img, table, size, i) && (table[i].Some? <==> img[i] == InUse)
    ensures var img1 := WithBlock(img, t, NameBlock(p));
      var img2 := WithBlock(img1, 0, BlockOf(img, 0)[t := InUse]);
      var table2 := table[t := Some(Name(p))];
      (table2[i].Some? <==> img2[i] == InUse) && Holds(img2, table2, size, i)
  {
    var fm := BlockOf(img, 0)[t := InUse];
    var img1 := WithBlock(img, t, NameBlock(p));
    WithBlockAt(img1, 0, fm, i);
    if i == t {
      BlockOfWithBlock(img1, 0, fm, t);
      BlockOfWithBlock(img, t, NameBlock(p), t);
      PaddedName(p, NameBlock(p));
    } else if table[i].Some? {
      BlockOfWithBlock(img1, 0, fm, i);
      BlockOfWithBlock(img, t, NameBlock(p), i);
    }
  }

  /** doDelete keeps the file system consistent. */
  lemma DeletePreserves(s: FsState, size: int, pathName: seq<byte>)
    requires Consistent(s, size)
    ensures Consistent(Delete(s, size, pathName).1, size)
  {
    var f := FindTarget(s.table, size, Name(pathName));
    if f.Found? {
      var t := f.block;
      var img1 := WithBlock(s.image, t, Zeros(BlockSize));
      var img := WithBlock(img1, 0, BlockOf(img1, 0)[t := Free]);
      var table := s.table[t := None];
      assert Delete(s, size, pathName).1 == FsState(img, table, s.readCount + 1, s.writeCount + 2);
      forall i | 1 <= i < TableSize
        ensures (table[i].Some? <==> img[i] == InUse) && Holds(img, table, size, i)
      {
        DeletedSlot(s.image, s.table, size, t, i);
      }
    }
  }

  /** Slot i after doDelete emptied block t. */
  lemma DeletedSlot(img: seq<byte>, table: seq<Option<string>>, size: int, t: nat, i: nat)
    requires 1 <= size && |img| == size * BlockSize && |table| == TableSize
    requires 1 <= t < size && t < TableSize && 1 <= i < TableSize
    requires Holds(img, table, size, i) && (table[i].Some? <==> img[i] == InUse)
    ensures var img1 := WithBlock(img, t, Zeros(BlockSize));
      var img2 := WithBlock(img1, 0, BlockOf(img1, 0)[t := Free]);
      var table2 := table[t := None];
      (table2[i].Some? <==> img2[i] == InUse) && Holds(img2, table2, size, i)
  {
    var img1 := WithBlock(img, t, Zeros(BlockSize));
    var fm := BlockOf(img1, 0)[t := Free];
    WithBlockAt(img1, 0, fm, i);
    WithBlockAt(img, t, Zeros(BlockSize), i);
    if i != t && table[i].Some? {
      BlockOfWithBlock(img1, 0, fm, i);
      BlockOfWithBlock(img, t, Zeros(BlockSize), i);
    }
  }

  /** A name findTargetBlock finds in a consistent state fits the 32-byte
      name field. */
  lemma FoundNameFits(s: FsState, size: int, p: seq<byte>)
    requires Consistent(s, size) && FindTarget(s.table, size, Name(p)).Found?
    ensures |p| <= NameLength
  {
    var t := FindTarget(s.table, size, Name(p)).block;
    if s.table[t].Some? {
      assert Holds(s.image, s.table, size, t);
      TrimShape(s.table[t].value);
    }
  }

  /** doWrite keeps the file system consistent: the name it copies over the
      front of the block is the name the slot is looked up by. */
  lemma WritePreserves(s: FsState, size: int, pathName: seq<byte>, buffer: Option<seq<byte>>)
    requires Consistent(s, size)
    ensures Consistent(Write(s, size, pathName, buffer).1, size)
  {
    var res := Write(s, size, pathName, buffer);
    if res.0 == Returned(0) {
      var t := FindTarget(s.table, size, Name(pathName)).block;
      FoundNameFits(s, size, pathName);
      var blk := WritePayload(pathName, buffer.value);
      WritePayloadLayout(pathName, buffer.value);
      var img := WithBlock(s.image, t, blk);
      assert res.1.image == img;
      forall i | 1 <= i < TableSize
        ensures (s.table[i].Some? <==> img[i] == InUse) && Holds(img, s.table, size, i)
      {
        WithBlockAt(s.image, t, blk, i);
        assert Holds(s.image, s.table, size, i);
        if s.table[i].Some? {
          BlockOfWithBlock(s.image, t, blk, i);
        }
        if i == t && s.table[t].Some? {
          var v := s.table[t].value;
          PaddedName(pathName, blk);
          TrimIdempotent(v);
        }
      }
    }
  }

  /** A file just created under a name that trim() leaves alone is the one
      findTargetBlock finds under that name. */
  lemma CreateThenFind(s: FsState, size: int, p: seq<byte>)
    requires Consistent(s, size)
    requires p != [] && Clean(Name(p))
    requires Create(s, size, Some(p)).0 == Returned(0)
    ensures Create(s, size, Some(p)).1.table[NewBlock(s, size)] == Some(Name(p))
    ensures FindTarget(Create(s, size, Some(p)).1.table, size, Name(p)) == Found(NewBlock(s, size))
  {
    CreatedImage(s, size, p);
    var t := NewBlock(s, size);
    var table := Create(s, size, Some(p)).1.table;
    forall j | 1 <= j < t
      ensures Entry(table[j]) != Name(p)
    {
      assert table[j] == s.table[j];
      if s.table[j].Some? {
        assert FreeMap(s)[j] == s.image[j];
      }
    }
    TrimOfClean(Name(p));
    FindTargetFirstMatch(table, size, Name(p), t);
  }

  /** Deleting a file just created on a disk with a free block restores the
      table and the free map; only the file's block is left zeroed, so an
      already-zero free block leaves the image as it was. */
  lemma CreateThenDelete(s: FsState, size: int, p: seq<byte>)
    requires Consistent(s, size)
    requires p != [] && Clean(Name(p))
    requires Create(s, size, Some(p)).0 == Returned(0)
    requires FreeFrom(FreeMap(s), size, 1).FreeAt?
    ensures Delete(Create(s, size, Some(p)).1, size, p).0 == Returned(0)
    ensures Delete(Create(s, size, Some(p)).1, size, p).1.table == s.table
    ensures Delete(Create(s, size, Some(p)).1, size, p).1.image ==
      WithBlock(s.image, NewBlock(s, size), Zeros(BlockSize))
    ensures BlockOf(s.image, NewBlock(s, size)) == Zeros(BlockSize) ==>
      Delete(Create(s, size, Some(p)).1, size, p).1.image == s.image
  {
    CreateThenFind(s, size, p);
    CreatedImage(s, size, p);
    var t := NewBlock(s, size);
    assert s.image[t] == Free;
    assert s.table[t := Some(Name(p))][t := None] == s.table;
    CreateDeleteImage(s.image, size, t, NameBlock(p));
    if BlockOf(s.image, t) == Zeros(BlockSize) {
      WithOwnBlock(s.image, t);
    }
  }

  /** The image algebra behind CreateThenDelete: block t written and marked
      '1', then zeroed and marked '0' again, differs from the start only in
      block t being zero. */
  lemma CreateDeleteImage(img: seq<byte>, size: int, t: nat, nb: seq<byte>)
    requires 1 <= size && |img| == size * BlockSize && 1 <= t < size && t < BlockSize
    requires |nb| == BlockSize && img[t] == Free
    ensures var fm := BlockOf(img, 0);
      var created := WithBlock(WithBlock(img, t, nb), 0, fm[t := InUse]);
      var zeroed := WithBlock(created, t, Zeros(BlockSize));
      WithBlock(zeroed, 0, BlockOf(zeroed, 0)[t := Free]) == WithBlock(img, t, Zeros(BlockSize))
  {
    var fm := BlockOf(img, 0);
    var z := Zeros(BlockSize);
    var marked: seq<byte> := fm[t := InUse];
    assert marked[t := Free] == fm;
    var img1 := WithBlock(img, t, z);
    WithBlockCommute(WithBlock(img, t, nb), 0, fm[t := InUse], t, z);
    WithBlockTwice(img, t, nb, z);
    BlockOfWithBlock(img1, 0, fm[t := InUse], 0);
    WithBlockTwice(img1, 0, fm[t := InUse], fm);
    BlockOfWithBlock(img, t, z, 0);
    WithOwnBlock(img1, 0);
  }

  /** On a disk whose free map has no free block, doCreateFile still returns
      0: it writes the new name over block 1 and its table slot, whatever
      file was there. */
  lemma CreateOnFullDisk(s: FsState, size: int, p: seq<byte>)
    requires Consistent(s, size) && 2 <= size
    requires FreeFrom(FreeMap(s), size, 1).NoneFree?
    requires |p| <= NameLength && DupFrom(FreeMap(s), s.table, Name(p), 1) == NoDuplicate
    ensures Create(s, size, Some(p)).0 == Returned(0)
    ensures Create(s, size, Some(p)).1.table[1] == Some(Name(p))
    ensures BlockOf(Create(s, size, Some(p)).1.image, 1) == NameBlock(p)
  {
    var s1 := s.(readCount := s.readCount + 1);
    assert Create(s, size, Some(p)) == CreateAt(s1, size, p, 1);
    var img1 := WithBlock(s.image, 1, NameBlock(p));
    BlockOfWithBlock(img1, 0, FreeMap(s)[1 := InUse], 1);
    BlockOfWithBlock(s.image, 1, NameBlock(p), 1);
  }

  /** doFormat leaves the table alone, so a file system holding a file is
      no longer consistent afterwards: its slot stays named while the
      formatted free map marks the block free. */
  lemma FormatLeavesStaleTable(s: FsState, size: int, i: nat)
    requires Consistent(s, size) && 1 <= i < TableSize && s.table[i].Some?
    ensures Format(s, size).0 == Returned(0)
    ensures FindTarget(Format(s, size).1.table, size, Entry(s.table[i])) == FindTarget(s.table, size, Entry(s.table[i]))
    ensures !Consistent(Format(s, size).1, size)
  {
    assert Holds(s.image, s.table, size, i);
    assert FormatImage(size)[i] == Free;
  }

  /** findTargetBlock looks at slots only through their trimmed text. */
  lemma {:induction false} FindFromEntries(t1: seq<Option<string>>, t2: seq<Option<string>>, size: int, name: string, i: nat)
    requires |t1| == TableSize && |t2| == TableSize && 1 <= i <= TableSize
    requires forall j :: i <= j < TableSize ==> Entry(t1[j]) == Entry(t2[j])
    ensures FindFrom(t1, size, name, i) == FindFrom(t2, size, name, i)
    decreases TableSize - i
  {
    if i < size && i < TableSize && Entry(t1[i]) != name {
      FindFromEntries(t1, t2, size, name, i + 1);
    }
  }

  /** Remounting the disk of a consistent file system succeeds and rebuilds
      a table that answers every lookup as the live one does. */
  lemma RemountAgrees(s: FsState, size: int)
    requires Consistent(s, size)
    ensures !MountFaults(s.image, size)
    ensures forall i :: 0 <= i < TableSize ==> Entry(MountedTable(s.image, size)[i]) == Entry(s.table[i])
    ensures forall name :: FindTarget(MountedTable(s.image, size), size, name) == FindTarget(s.table, size, name)
  {
    forall i | 1 <= i < TableSize && s.image[i] == InUse
      ensures i < size
    {
      assert Holds(s.image, s.table, size, i);
    }
    var m := MountedTable(s.image, size);
    forall i | 0 <= i < TableSize
      ensures Entry(m[i]) == Entry(s.table[i])
    {
      if 1 <= i {
        assert Holds(s.image, s.table, size, i);
      }
    }
    forall name
      ensures FindTarget(m, size, name) == FindTarget(s.table, size, name)
    {
      FindFromEntries(m, s.table, size, name, 1);
    }
  }

  /** After doWrite returns 0, the file is still found under the same name,
      doRead returns 0, and its block holds the name followed by the first
      480 bytes of the buffer. */
  lemma WriteThenRead(s: FsState, size: int, p: seq<byte>, buf: seq<byte>)
    requires Consistent(s, size)
    requires Write(s, size, p, Some(buf)).0 == Returned(0)
    ensures FindTarget(s.table, size, Name(p)).Found?
    ensures Read(Write(s, size, p, Some(buf)).1, size, Some(p)).0 == Returned(0)
    ensures BlockOf(Write(s, size, p, Some(buf)).1.image, FindTarget(s.table, size, Name(p)).block)[..|p|] == p
    ensures BlockOf(Write(s, size, p, Some(buf)).1.image, FindTarget(s.table, size, Name(p)).block)[NameLength..]
      == buf[..BlockSize - NameLength]
  {
    var t := FindTarget(s.table, size, Name(p)).block;
    FoundNameFits(s, size, p);
    var blk := WritePayload(p, buf);
    WritePayloadLayout(p, buf);
    BlockOfWithBlock(s.image, t, blk, t);
  }
}
