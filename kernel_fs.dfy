/** The flat file system the kernel's handlers implement on top of FileSys:
    doCreateFile, doRead, doWrite, doDelete, doFormat and their shared lookup
    findTargetBlock. Each handler is an imperative method on the FileSys
    object, proved equal to a specification function from the state before
    to the handler's outcome and the state after. */
module KernelFs {
  import opened JavaTypes
  import opened Blocks
  import opened FastDiskDevice
  import opened FileSystem

  /** How a handler ended: it returned a value, or it threw (a null
      argument, an index outside an array), which interrupt turns into
      ERROR_BAD_ARGUMENT. */
  datatype Outcome = Returned(value: int) | Threw

  /** Everything a file handler can change: the disk image, the file table
      and the disk's two operation counters. */
  datatype FsState = FsState(image: seq<byte>, table: seq<Option<string>>, readCount: int, writeCount: int)

  predicate Shaped(s: FsState, size: int) {
    1 <= size < MaxBlocks && |s.image| == size * BlockSize && |s.table| == TableSize
  }

  ghost function StateOf(fs: FileSys): (s: FsState)
    reads fs, fs.disk, fs.disk.data, fs.fileTable
    requires fs.Valid()
    ensures Shaped(s, fs.disk.diskSize)
  {
    FsState(fs.disk.Image(), fs.fileTable[..], fs.disk.readCount, fs.disk.writeCount)
  }

  /** A Java byte[] argument, null included. */
  function Bytes(a: array?<byte>): (b: Option<seq<byte>>)
    reads a
    ensures b.None? <==> a == null
    ensures b.Some? ==> b.value == a[..]
  {
    if a == null then None else Some(a[..])
  }

  /** The free map: block 0 of the image. */
  function FreeMap(s: FsState): (fm: seq<byte>)
    requires |s.image| >= BlockSize
    ensures |fm| == BlockSize && forall i :: 0 <= i < BlockSize ==> fm[i] == s.image[i]
  {
    BlockOf(s.image, 0)
  }

  // ----------------------------------------------------------- lookup

  /** The text a table slot is compared with: the trimmed name, or "" for
      an empty slot. */
  function Entry(e: Option<string>): string {
    if e.None? then "" else Trim(e.value)
  }

  /** findTargetBlock: the block found, -1 (NotFound), or the exception
      raised when the scan runs past the 100-slot table on a larger disk. */
  datatype Lookup = Found(block: nat) | NotFound | LookupFault

  /** The scan of findTargetBlock from slot i on. */
  function FindFrom(table: seq<Option<string>>, size: int, name: string, i: nat): (f: Lookup)
    requires |table| == TableSize && 1 <= i <= TableSize
    ensures f.Found? ==>
      && i <= f.block < size && f.block < TableSize
      && Entry(table[f.block]) == name
      && forall j :: i <= j < f.block ==> Entry(table[j]) != name
    ensures f.NotFound? ==> size <= TableSize && forall j :: i <= j < size ==> Entry(table[j]) != name
    ensures f.LookupFault? ==> TableSize < size && forall j :: i <= j < TableSize ==> Entry(table[j]) != name
    decreases TableSize - i
  {
    if size <= i then NotFound
    else if TableSize <= i then LookupFault
    else if Entry(table[i]) == name then Found(i)
    else FindFrom(table, size, name, i + 1)
  }

  function FindTarget(table: seq<Option<string>>, size: int, name: string): (f: Lookup)
    requires |table| == TableSize
  {
    FindFrom(table, size, name, 1)
  }

  /** The lookup result is determined by where the name occurs: any slot
      that matches and has no earlier match is the one found. */
  lemma {:induction false} FindTargetFirstMatch(table: seq<Option<string>>, size: int, name: string, t: nat)
    requires |table| == TableSize
    requires 1 <= t < size && t < TableSize && Entry(table[t]) == name
    requires forall j :: 1 <= j < t ==> Entry(table[j]) != name
    ensures FindTarget(table, size, name) == Found(t)
  {
    var f := FindTarget(table, size, name);
    if f.Found? {
      assert f.block <= t;
    }
  }

  /** No slot in range matches: -1, or the fault on a disk of more than
      100 blocks. */
  lemma {:induction false} FindTargetNoMatch(table: seq<Option<string>>, size: int, name: string)
    requires |table| == TableSize
    requires forall j :: 1 <= j < size && j < TableSize ==> Entry(table[j]) != name
    ensures FindTarget(table, size, name) == if size <= TableSize then NotFound else LookupFault
  {
  }

  // ----------------------------------------------------------- create

  /** The duplicate check of doCreateFile over slots 1..99 marked in use. */
  datatype DupScan = Duplicate | NoDuplicate | DupFault

  function DupFrom(fm: seq<byte>, table: seq<Option<string>>, name: string, i: nat): (d: DupScan)
    requires |fm| == BlockSize && |table| == TableSize && 1 <= i <= TableSize
    ensures d == NoDuplicate <==>
      forall j :: i <= j < TableSize && fm[j] == InUse ==> table[j].Some? && Trim(table[j].value) != name
    decreases TableSize - i
  {
    if i == TableSize then NoDuplicate
    else if fm[i] == InUse && table[i].None? then DupFault
    else if fm[i] == InUse && name == Trim(table[i].value) then Duplicate
    else DupFrom(fm, table, name, i + 1)
  }

  /** The search for the first free block of doCreateFile. */
  datatype FreeSearch = FreeAt(t: nat) | NoneFree | FreeFault

  function FreeFrom(fm: seq<byte>, size: int, i: nat): (f: FreeSearch)
    requires |fm| == BlockSize && 1 <= i <= BlockSize
    ensures f.FreeAt? ==>
      && i <= f.t < size && f.t < BlockSize && fm[f.t] == Free
      && forall j :: i <= j < f.t ==> fm[j] != Free
    ensures f.NoneFree? ==> size <= BlockSize && forall j :: i <= j < size ==> fm[j] != Free
    ensures f.FreeFault? ==> BlockSize < size && forall j :: i <= j < BlockSize ==> fm[j] != Free
    decreases BlockSize - i
  {
    if size <= i then NoneFree
    else if BlockSize <= i then FreeFault
    else if fm[i] == Free then FreeAt(i)
    else FreeFrom(fm, size, i + 1)
  }

  /** The block doCreateFile writes: the name, then zeros. */
  function NameBlock(p: seq<byte>): (blk: seq<byte>)
    requires |p| <= NameLength
    ensures |blk| == BlockSize && blk[..|p|] == p
    ensures forall k :: |p| <= k < BlockSize ==> blk[k] == 0
  {
    p + Zeros(BlockSize - |p|)
  }

  /** The block doCreateFile picks: the first free one, or block 1 when the
      free map has none. */
  function CreateTarget(f: FreeSearch): nat {
    if f.FreeAt? then f.t else 1
  }

  /** doCreateFile(pathName). */
  function Create(s: FsState, size: int, pathName: Option<seq<byte>>): (res: (Outcome, FsState))
    requires Shaped(s, size)
    ensures res.0 == Returned(-1) <==>
      && pathName.Some?
      && (NameLength < |pathName.value|
          || DupFrom(FreeMap(s), s.table, Name(pathName.value), 1) == Duplicate)
    ensures res.0 == Returned(-1) ==> res.1.image == s.image && res.1.table == s.table
    ensures res.0 == Returned(0) ==> res.1.writeCount == s.writeCount + 2 && res.1.readCount == s.readCount + 1
  {
    if pathName.None? then (Threw, s)
    else
      var p := pathName.value;
      if NameLength < |p| then (Returned(-1), s)
      else
        var fm := FreeMap(s);
        var s1 := s.(readCount := s.readCount + 1);
        match DupFrom(fm, s.table, Name(p), 1)
        case Duplicate => (Returned(-1), s1)
        case DupFault => (Threw, s1)
        case NoDuplicate =>
          var f := FreeFrom(fm, size, 1);
          if f.FreeFault? then (Threw, s1)
          else CreateAt(s1, size, p, CreateTarget(f))
  }

  /** The writes of doCreateFile once the target block t is chosen: the name
      block, then the free map with t marked in use, then the table slot.
      A target past the disk throws before any write; one past the table
      throws after both writes. */
  function CreateAt(s: FsState, size: int, p: seq<byte>, t: nat): (res: (Outcome, FsState))
    requires Shaped(s, size) && |p| <= NameLength && 1 <= t < BlockSize
    ensures res.0 == Returned(0) ==> t < TableSize && res.1.table == s.table[t := Some(Name(p))]
    ensures res.0 == Returned(0) || res.1.table == s.table
    ensures t < TableSize ==> res.0 == Returned(0) || res == (Threw, s)
  {
    if size <= t then (Threw, s)
    else
      var img := WithBlock(WithBlock(s.image, t, NameBlock(p)), 0, FreeMap(s)[t := InUse]);
      var s2 := s.(image := img, writeCount := s.writeCount + 2);
      if TableSize <= t then (Threw, s2)
      else (Returned(0), s2.(table := s.table[t := Some(Name(p))]))
  }

  // ----------------------------------------------------------- read

  /** doRead(pathName): 0 after reading the file's block, -1 for an unknown
      name. */
  function Read(s: FsState, size: int, pathName: Option<seq<byte>>): (res: (Outcome, FsState))
    requires Shaped(s, size)
    ensures res.1.image == s.image && res.1.table == s.table && res.1.writeCount == s.writeCount
    ensures res.0 == Returned(0) <==> pathName.Some? && FindTarget(s.table, size, Name(pathName.value)).Found?
    ensures res.0 == Returned(-1) <==> pathName.Some? && FindTarget(s.table, size, Name(pathName.value)).NotFound?
  {
    if pathName.None? then (Threw, s)
    else match FindTarget(s.table, size, Name(pathName.value))
      case LookupFault => (Threw, s)
      case NotFound => (Returned(-1), s)
      case Found(_) => (Returned(0), s.(readCount := s.readCount + 1))
  }

  // ----------------------------------------------------------- write

  /** The block doWrite stores: bytes 32..511 from the buffer, then the name
      copied over the front. */
  function WritePayload(p: seq<byte>, buf: seq<byte>): (blk: seq<byte>)
    requires |p| <= BlockSize && BlockSize - NameLength <= |buf|
    ensures |blk| == BlockSize
  {
    p + (Zeros(NameLength) + buf[..BlockSize - NameLength])[|p|..]
  }

  /** For a name that fits its field: the name, zeros up to byte 32, then
      the first 480 bytes of the buffer. */
  lemma WritePayloadLayout(p: seq<byte>, buf: seq<byte>)
    requires |p| <= NameLength && BlockSize - NameLength <= |buf|
    ensures WritePayload(p, buf)[..|p|] == p
    ensures forall k :: |p| <= k < NameLength ==> WritePayload(p, buf)[k] == 0
    ensures WritePayload(p, buf)[NameLength..] == buf[..BlockSize - NameLength]
  {
    var blk := WritePayload(p, buf);
    assert blk[NameLength..] == (Zeros(NameLength) + buf[..BlockSize - NameLength])[NameLength..];
  }

  /** doWrite(pathName, buffer). */
  function Write(s: FsState, size: int, pathName: seq<byte>, buffer: Option<seq<byte>>): (res: (Outcome, FsState))
    requires Shaped(s, size)
    ensures res.1.table == s.table && res.1.readCount == s.readCount
    ensures res.0 == Returned(-1) <==> FindTarget(s.table, size, Name(pathName)).NotFound?
    ensures res.0 != Returned(0) ==> res.1 == s
  {
    match FindTarget(s.table, size, Name(pathName))
    case LookupFault => (Threw, s)
    case NotFound => (Returned(-1), s)
    case Found(t) => WriteAt(s, size, t, pathName, buffer)
  }

  /** The steps of doWrite once block t holds the file: build the payload
      (throwing on a missing or short buffer or an over-long name), then
      write it to block t. */
  function WriteAt(s: FsState, size: int, t: nat, pathName: seq<byte>, buffer: Option<seq<byte>>): (res: (Outcome, FsState))
    requires Shaped(s, size) && t < size
    ensures res.1.table == s.table && res.1.readCount == s.readCount
    ensures res.0 == Returned(0) || res == (Threw, s)
  {
    if buffer.None? || |buffer.value| < BlockSize - NameLength || BlockSize < |pathName| then (Threw, s)
    else (Returned(0), s.(image := WithBlock(s.image, t, WritePayload(pathName, buffer.value)), writeCount := s.writeCount + 1))
  }

  // ----------------------------------------------------------- delete

  /** doDelete(pathName): zero the block, clear the slot, mark it free. */
  function Delete(s: FsState, size: int, pathName: seq<byte>): (res: (Outcome, FsState))
    requires Shaped(s, size)
    ensures res.0 == Returned(-1) <==> FindTarget(s.table, size, Name(pathName)).NotFound?
    ensures res.0 != Returned(0) ==> res.1 == s
  {
    match FindTarget(s.table, size, Name(pathName))
    case LookupFault => (Threw, s)
    case NotFound => (Returned(-1), s)
    case Found(t) => (Returned(0), DeleteAt(s, size, t))
  }

  /** The steps of doDelete once block t holds the file: zero the block,
      clear the slot, then read the free map back and mark t free. */
  function DeleteAt(s: FsState, size: int, t: nat): (s': FsState)
    requires Shaped(s, size) && 1 <= t < size && t < TableSize
    ensures Shaped(s', size)
  {
    var img := WithBlock(s.image, t, Zeros(BlockSize));
    var fm := BlockOf(img, 0);
    FsState(WithBlock(img, 0, fm[t := Free]), s.table[t := None], s.readCount + 1, s.writeCount + 2)
  }

  // ----------------------------------------------------------- format

  /** doFormat(): the disk is formatted, the table is left as it was. */
  function Format(s: FsState, size: int): (res: (Outcome, FsState))
    requires Shaped(s, size)
    ensures res.1.table == s.table && res.1.image == FormatImage(size)
    ensures res.0 == Returned(0)
  {
    (Returned(0), s.(image := FormatImage(size)))
  }

  // ======================================================= handlers

  /** disk.write(t, buf) with a one-block buffer, as the file system sees
      it: block t replaced, one write counted. */
  method WriteBlock(fs: FileSys, t: nat, buf: array<byte>)
    requires fs.Valid() && t < fs.disk.diskSize && buf.Length == BlockSize && buf != fs.disk.data
    modifies fs.disk`writeCount, fs.disk.data
    ensures fs.Valid()
    ensures StateOf(fs) == old(StateOf(fs)).(
      image := WithBlock(old(StateOf(fs)).image, t, buf[..]),
      writeCount := old(fs.disk.writeCount) + 1)
  {
    var ok := fs.disk.Write(t, buf);
    assert Head(buf[..]) == buf[..];
  }

  /** disk.read(t, buf) into a one-block buffer: the buffer holds block t,
      one read counted. */
  method ReadBlock(fs: FileSys, t: nat, buf: array<byte>)
    requires fs.Valid() && t < fs.disk.diskSize && buf.Length == BlockSize && buf != fs.disk.data
    modifies fs.disk`readCount, buf
    ensures fs.Valid()
    ensures StateOf(fs) == old(StateOf(fs)).(readCount := old(fs.disk.readCount) + 1)
    ensures buf[..] == BlockOf(StateOf(fs).image, t)
  {
    var ok := fs.disk.Read(t, buf);
    assert buf[..] == FillHead(old(buf[..]), BlockOf(fs.disk.Image(), t));
  }

  /** findTargetBlock(pathName). */
  method FindTargetBlock(fs: FileSys, pathName: seq<byte>) returns (f: Lookup)
    requires fs.Valid()
    ensures f == FindTarget(fs.fileTable[..], fs.disk.diskSize, Name(pathName))
  {
    ghost var table := fs.fileTable[..];
    var name := Name(pathName);
    var i := 1;
    while i < fs.disk.diskSize
      invariant 1 <= i <= TableSize
      invariant FindFrom(table, fs.disk.diskSize, name, i) == FindTarget(table, fs.disk.diskSize, name)
    {
      if TableSize <= i {
        return LookupFault;
      }
      var e := fs.fileTable[i];
      var current := if e.None? then "" else Trim(e.value);
      if name == current {
        return Found(i);
      }
      i := i + 1;
    }
    f := NotFound;
  }

  /** freeMap[t] = v followed by disk.write(0, freeMap): block 0 becomes
      the free map read earlier with slot t set. */
  method StoreFreeMap(fs: FileSys, freeMap: array<byte>, t: nat, v: byte)
    requires fs.Valid() && freeMap.Length == BlockSize && freeMap != fs.disk.data && t < BlockSize
    modifies fs.disk`writeCount, fs.disk.data, freeMap
    ensures fs.Valid()
    ensures freeMap[..] == old(freeMap[..])[t := v]
    ensures StateOf(fs) == old(StateOf(fs)).(
      image := WithBlock(old(StateOf(fs)).image, 0, old(freeMap[..])[t := v]),
      writeCount := old(fs.disk.writeCount) + 1)
  {
    freeMap[t] := v;
    WriteBlock(fs, 0, freeMap);
  }

  /** The pathAndContents block of doCreateFile: a zeroed block with the
      name copied to its front. */
  method NameBlockOf(pathName: array<byte>) returns (blk: array<byte>)
    requires pathName.Length <= NameLength
    ensures fresh(blk) && blk.Length == BlockSize && blk[..] == NameBlock(pathName[..])
  {
    blk := new byte[BlockSize](_ => 0);
    ArrayCopy(pathName, 0, blk, 0, pathName.Length);
    assert blk[..] == NameBlock(pathName[..]);
  }

  /** doCreateFile(pathName). */
  method DoCreateFile(fs: FileSys, pathName: array?<byte>) returns (r: Outcome)
    requires fs.Valid() && pathName != fs.disk.data
    modifies fs.disk`readCount, fs.disk`writeCount, fs.disk.data, fs.fileTable
    ensures fs.Valid()
    ensures (r, StateOf(fs)) == Create(old(StateOf(fs)), fs.disk.diskSize, Bytes(pathName))
  {
    if pathName == null {
      return Threw;
    }
    if pathName.Length > NameLength {
      return Returned(-1);
    }
    ghost var s0 := StateOf(fs);
    ghost var s1 := s0.(readCount := s0.readCount + 1);
    var freeMap := new byte[fs.GetBlockSizeOfDisk()](_ => 0);
    ReadBlock(fs, 0, freeMap);
    assert StateOf(fs) == s1;
    var dup := DuplicateCheck(fs, freeMap, Name(pathName[..]));
    if dup == DupFault {
      return Threw;
    }
    if dup == Duplicate {
      return Returned(-1);
    }
    var targetBlock := CreateTargetOf(freeMap, fs.disk.diskSize);
    if targetBlock < 0 {
      return Threw;
    }
    assert Create(s0, fs.disk.diskSize, Some(pathName[..])) == CreateAt(s1, fs.disk.diskSize, pathName[..], targetBlock);
    r := WriteNewFile(fs, pathName, freeMap, targetBlock);
  }

  /** The duplicate-name loop of doCreateFile over the free map it read. */
  method DuplicateCheck(fs: FileSys, freeMap: array<byte>, name: string) returns (d: DupScan)
    requires fs.Valid() && freeMap.Length == BlockSize
    ensures d == DupFrom(freeMap[..], fs.fileTable[..], name, 1)
  {
    ghost var fm := freeMap[..];
    ghost var table := fs.fileTable[..];
    var i := 1;
    while i < TableSize
      invariant 1 <= i <= TableSize
      invariant DupFrom(fm, table, name, i) == DupFrom(fm, table, name, 1)
    {
      if freeMap[i] == InUse {
        var e := fs.fileTable[i];
        if e.None? {
          return DupFault;
        }
        if name == Trim(e.value) {
          return Duplicate;
        }
      }
      i := i + 1;
    }
    d := NoDuplicate;
  }

  /** The writes of doCreateFile: the name block to block t, the free map
      with t marked back to block 0, then the table slot. */
  method WriteNewFile(fs: FileSys, pathName: array<byte>, freeMap: array<byte>, t: int) returns (r: Outcome)
    requires fs.Valid() && pathName != fs.disk.data && freeMap != fs.disk.data && pathName != freeMap
    requires pathName.Length <= NameLength && 1 <= t < BlockSize
    requires freeMap[..] == FreeMap(StateOf(fs))
    modifies fs.disk`writeCount, fs.disk.data, fs.fileTable, freeMap
    ensures fs.Valid()
    ensures (r, StateOf(fs)) == CreateAt(old(StateOf(fs)), fs.disk.diskSize, pathName[..], t)
  {
    ghost var s0 := StateOf(fs);
    ghost var p := pathName[..];
    ghost var fm := freeMap[..];
    ghost var want := CreateAt(s0, fs.disk.diskSize, p, t);
    var pathAndContents := NameBlockOf(pathName);
    if fs.disk.diskSize <= t {
      assert want == (Threw, s0);
      return Threw;
    }
    ghost var img1 := WithBlock(s0.image, t, NameBlock(p));
    WriteBlock(fs, t, pathAndContents);
    assert StateOf(fs) == s0.(image := img1, writeCount := s0.writeCount + 1);
    StoreFreeMap(fs, freeMap, t, InUse);
    ghost var s2 := s0.(image := WithBlock(img1, 0, fm[t := InUse]), writeCount := s0.writeCount + 2);
    assert StateOf(fs) == s2;
    if TableSize <= t {
      assert want == (Threw, s2);
      return Threw;
    }
    fs.fileTable[t] := Some(Name(pathName[..]));
    assert fs.fileTable[..] == s0.table[t := Some(Name(p))];
    assert want == (Returned(0), s2.(table := s0.table[t := Some(Name(p))]));
    r := Returned(0);
  }

  /** The free-block loop of doCreateFile over the free map it read: the
      block picked, or -1 for the exception raised when the loop runs past
      the 512-byte free map. */
  method CreateTargetOf(freeMap: array<byte>, size: int) returns (t: int)
    requires freeMap.Length == BlockSize
    ensures t == -1 <==> FreeFrom(freeMap[..], size, 1).FreeFault?
    ensures t != -1 ==> t == CreateTarget(FreeFrom(freeMap[..], size, 1)) && 1 <= t < BlockSize
  {
    ghost var fm := freeMap[..];
    var targetBlock := 1;
    var i := 1;
    while i < size
      invariant 1 <= i <= BlockSize
      invariant FreeFrom(fm, size, i) == FreeFrom(fm, size, 1)
    {
      if BlockSize <= i {
        return -1;
      }
      if freeMap[i] == Free {
        targetBlock := i;
        break;
      }
      i := i + 1;
    }
    t := targetBlock;
  }

  /** doRead(pathName); shown is the block the handler prints. */
  method DoRead(fs: FileSys, pathName: array?<byte>) returns (r: Outcome, shown: seq<byte>)
    requires fs.Valid() && pathName != fs.disk.data
    modifies fs.disk`readCount
    ensures fs.Valid()
    ensures (r, StateOf(fs)) == Read(old(StateOf(fs)), fs.disk.diskSize, Bytes(pathName))
    ensures r == Returned(0) ==>
      shown == BlockOf(StateOf(fs).image, FindTarget(StateOf(fs).table, fs.disk.diskSize, Name(pathName[..])).block)
  {
    shown := [];
    var tempBuffer := new byte[BlockSize](_ => 0);
    if pathName == null {
      return Threw, shown;
    }
    var f := FindTargetBlock(fs, pathName[..]);
    if f.LookupFault? {
      return Threw, shown;
    }
    if f.NotFound? {
      return Returned(-1), shown;
    }
    var ok := fs.disk.Read(f.block, tempBuffer);
    shown := tempBuffer[..];
    r := Returned(0);
  }

  /** doWrite(pathName, buffer). */
  method DoWrite(fs: FileSys, pathName: array<byte>, buffer: array?<byte>) returns (r: Outcome)
    requires fs.Valid() && pathName != fs.disk.data && buffer != fs.disk.data
    modifies fs.disk`writeCount, fs.disk.data
    ensures fs.Valid()
    ensures (r, StateOf(fs)) == Write(old(StateOf(fs)), fs.disk.diskSize, pathName[..], Bytes(buffer))
  {
    var f := FindTargetBlock(fs, pathName[..]);
    if f.LookupFault? {
      return Threw;
    }
    if f.NotFound? {
      return Returned(-1);
    }
    r := StoreFile(fs, f.block, pathName, buffer);
  }

  /** The payload construction and the write of doWrite for block t. */
  method StoreFile(fs: FileSys, t: nat, pathName: array<byte>, buffer: array?<byte>) returns (r: Outcome)
    requires fs.Valid() && t < fs.disk.diskSize && pathName != fs.disk.data && buffer != fs.disk.data
    modifies fs.disk`writeCount, fs.disk.data
    ensures fs.Valid()
    ensures (r, StateOf(fs)) == WriteAt(old(StateOf(fs)), fs.disk.diskSize, t, pathName[..], Bytes(buffer))
  {
    if buffer == null || buffer.Length < BlockSize - NameLength || BlockSize < pathName.Length {
      return Threw;
    }
    var fileNameAndBuffer := PayloadOf(pathName, buffer);
    WriteBlock(fs, t, fileNameAndBuffer);
    r := Returned(0);
  }

  /** The fileNameAndBuffer block of doWrite: the first 480 bytes of the
      buffer at offset 32 of a zeroed block, then the name copied over the
      front. */
  method PayloadOf(pathName: array<byte>, buffer: array<byte>) returns (blk: array<byte>)
    requires buffer.Length >= BlockSize - NameLength && pathName.Length <= BlockSize
    ensures fresh(blk) && blk.Length == BlockSize
    ensures blk[..] == WritePayload(pathName[..], buffer[..])
  {
    blk := new byte[BlockSize](_ => 0);
    ArrayCopy(buffer, 0, blk, NameLength, BlockSize - NameLength);
    assert blk[..] == Zeros(NameLength) + buffer[..BlockSize - NameLength];
    ArrayCopy(pathName, 0, blk, 0, pathName.Length);
  }

  /** doDelete(pathName). */
  method DoDelete(fs: FileSys, pathName: array<byte>) returns (r: Outcome)
    requires fs.Valid() && pathName != fs.disk.data
    modifies fs.disk`readCount, fs.disk`writeCount, fs.disk.data, fs.fileTable
    ensures fs.Valid()
    ensures (r, StateOf(fs)) == Delete(old(StateOf(fs)), fs.disk.diskSize, pathName[..])
  {
    var f := FindTargetBlock(fs, pathName[..]);
    if f.LookupFault? {
      return Threw;
    }
    if f.NotFound? {
      return Returned(-1);
    }
    EraseFile(fs, f.block);
    r := Returned(0);
  }

  /** The writes of doDelete for the file in block t. */
  method EraseFile(fs: FileSys, t: nat)
    requires fs.Valid() && 1 <= t < fs.disk.diskSize && t < TableSize
    modifies fs.disk`readCount, fs.disk`writeCount, fs.disk.data, fs.fileTable
    ensures fs.Valid()
    ensures StateOf(fs) == DeleteAt(old(StateOf(fs)), fs.disk.diskSize, t)
  {
    ghost var s0 := StateOf(fs);
    var nullByteArray := new byte[fs.GetBlockSizeOfDisk()](_ => 0);
    assert nullByteArray[..] == Zeros(BlockSize);
    WriteBlock(fs, t, nullByteArray);
    ghost var img1 := WithBlock(s0.image, t, Zeros(BlockSize));
    fs.fileTable[t] := None;
    ghost var s1 := FsState(img1, s0.table[t := None], s0.readCount, s0.writeCount + 1);
    assert StateOf(fs) == s1;
    var freeMap := new byte[fs.GetBlockSizeOfDisk()](_ => 0);
    ReadBlock(fs, 0, freeMap);
    assert freeMap[..] == BlockOf(img1, 0);
    StoreFreeMap(fs, freeMap, t, Free);
  }

  /** doFormat(). */
  method DoFormat(fs: FileSys) returns (r: Outcome)
    requires fs.Valid()
    modifies fs.disk`data
    ensures fs.Valid()
    ensures (r, StateOf(fs)) == Format(old(StateOf(fs)), fs.disk.diskSize)
  {
    fs.disk.Format();
    r := Returned(0);
  }
}
