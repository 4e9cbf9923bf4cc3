/** Disk: the slow, asynchronous block device. A caller starts a transfer
    with beginRead or beginWrite; the controller, flattened here into explicit
    steps, picks the request up (waitForRequest), seeks (delay), moves one
    block (the body of run) and goes idle again (finishOperation), after which
    it raises INTERRUPT_DISK. */
module DiskDevice {
  import opened JavaTypes
  import opened Blocks

  /** The largest size whose byte count DISK_SIZE * BLOCK_SIZE fits a Java int. */
  const MaxIntBlocks: int := 0x40_0000

  /** How a beginRead/beginWrite call ends: the request is recorded, or the
      disk "crashes" (DiskException) for bad arguments or for a busy device. */
  datatype BeginOutcome = Accepted | IllegalRequest | WhileBusy

  /** Whether Disk(size) returns instead of throwing: a host file DISK of the
      wrong length and a size below one both crash the disk. */
  predicate Accepts(size: Int32, image: Option<seq<byte>>) {
    && (image.Some? ==> |image.value| == size * BlockSize)
    && 1 <= size
  }

  function Abs(x: int): nat {
    if x < 0 then -x else x
  }

  /** delay(target): milliseconds slept before the transfer, growing with the
      seek distance; Java's integer division truncates, which on the
      non-negative distance is Dafny's division. */
  function SeekTime(target: int, current: int): (ms: int)
    ensures ms >= 10
    ensures 5 * (ms - 10) <= Abs(target - current) < 5 * (ms - 9)
  {
    10 + Abs(target - current) / 5
  }

  /** A longer seek never sleeps less. */
  lemma SeekTimeMonotone(t1: int, c1: int, t2: int, c2: int)
    requires Abs(t1 - c1) <= Abs(t2 - c2)
    ensures SeekTime(t1, c1) <= SeekTime(t2, c2)
  {
    var d1, d2 := Abs(t1 - c1), Abs(t2 - c2);
    assert d1 == 5 * (d1 / 5) + d1 % 5;
    assert d2 == 5 * (d2 / 5) + d2 % 5;
  }

  class Disk {
    /** DISK_SIZE, in blocks. */
    const diskSize: int
    var data: array<byte>
    /** Where the head is: the block of the last completed transfer. */
    var currentBlock: int
    /** A transfer has been picked up and has not finished. */
    var busy: bool
    var isWriting: bool
    var targetBlock: int
    /** The caller's buffer of the pending or running transfer. */
    var buffer: array?<byte>
    /** A request was recorded and not yet picked up. */
    var requestQueued: bool
    var readCount: int
    var writeCount: int

    /** The controller's invariant: at most one request is outstanding (never
        queued and running at once), and the recorded request is one that
        begin* accepted. */
    ghost predicate Valid()
      reads this
    {
      && 1 <= diskSize < MaxIntBlocks
      && data.Length == diskSize * BlockSize
      && 0 <= currentBlock < diskSize
      && 0 <= targetBlock < diskSize
      && !(requestQueued && busy)
      && ((requestQueued || busy) ==> RequestValid())
    }

    ghost predicate RequestValid()
      reads this
    {
      buffer != null && buffer.Length >= BlockSize && buffer != data
    }

    ghost function Image(): (img: seq<byte>)
      reads this, data
      requires Valid()
      ensures |img| == diskSize * BlockSize
    {
      data[..]
    }

    /** new Disk(size): the contents of the host file DISK when one exists,
        otherwise a formatted (all-zero) disk; the head at block 0, idle. */
    constructor (size: Int32, image: Option<seq<byte>>)
      requires Accepts(size, image) && size < MaxIntBlocks
      ensures Valid() && diskSize == size && fresh(data)
      ensures Image() == if image.Some? then image.value else Zeros(size * BlockSize)
      ensures !busy && !requestQueued && currentBlock == 0 && buffer == null
      ensures readCount == 0 && writeCount == 0
    {
      diskSize := size;
      currentBlock, targetBlock := 0, 0;
      busy, isWriting, requestQueued := false, false, false;
      buffer := null;
      readCount, writeCount := 0, 0;
      if image.Some? {
        var img := image.value;
        data := new byte[size * BlockSize](i requires 0 <= i < |img| => img[i]);
      } else {
        data := new byte[size * BlockSize](_ => 0);
      }
    }

    /** new Disk(size), returning null where the source throws. */
    static method Create(size: Int32, image: Option<seq<byte>>) returns (d: Disk?)
      requires size < MaxIntBlocks
      ensures d != null <==> Accepts(size, image)
      ensures d != null ==> fresh(d) && fresh(d.data) && d.Valid() && d.diskSize == size
      ensures d != null ==> d.Image() == (if image.Some? then image.value else Zeros(size * BlockSize))
      ensures d != null ==> !d.busy && !d.requestQueued && d.currentBlock == 0
    {
      if Accepts(size, image) {
        d := new Disk(size, image);
      } else {
        d := null;
      }
    }

    /** format(): every byte zero. */
    method Format()
      requires Valid()
      modifies this`data
      ensures Valid() && fresh(data)
      ensures Image() == Zeros(diskSize * BlockSize)
    {
      data := new byte[diskSize * BlockSize](_ => 0);
    }

    /** The argument check shared by beginRead and beginWrite. */
    predicate LegalRequest(b: Int32, buf: array?<byte>)
      reads this
    {
      0 <= b < diskSize && buf != null && buf.Length >= BlockSize
    }

    /** The outcome of begin*: arguments are checked before busy. */
    function BeginResult(b: Int32, buf: array?<byte>): (r: BeginOutcome)
      reads this
      ensures r == Accepted <==> LegalRequest(b, buf) && !busy
      ensures r == WhileBusy <==> LegalRequest(b, buf) && busy
    {
      if !LegalRequest(b, buf) then IllegalRequest
      else if busy then WhileBusy
      else Accepted
    }

    /** beginRead(blockNumber, buffer). */
    method BeginRead(b: Int32, buf: array?<byte>) returns (r: BeginOutcome)
      requires Valid() && buf != data
      modifies this`isWriting, this`buffer, this`targetBlock, this`requestQueued
      ensures Valid()
      ensures r == old(BeginResult(b, buf))
      ensures r == Accepted ==> !isWriting && buffer == buf && targetBlock == b && requestQueued
      ensures r != Accepted ==> unchanged(this)
    {
      r := BeginResult(b, buf);
      if r == Accepted {
        isWriting := false;
        buffer := buf;
        targetBlock := b;
        requestQueued := true;
      }
    }

    /** beginWrite(blockNumber, buffer). */
    method BeginWrite(b: Int32, buf: array?<byte>) returns (r: BeginOutcome)
      requires Valid() && buf != data
      modifies this`isWriting, this`buffer, this`targetBlock, this`requestQueued
      ensures Valid()
      ensures r == old(BeginResult(b, buf))
      ensures r == Accepted ==> isWriting && buffer == buf && targetBlock == b && requestQueued
      ensures r != Accepted ==> unchanged(this)
    {
      r := BeginResult(b, buf);
      if r == Accepted {
        isWriting := true;
        buffer := buf;
        targetBlock := b;
        requestQueued := true;
      }
    }

    /** waitForRequest(): with a request queued, picks it up and marks the
        disk busy; with none, the controller would block (taken is false and
        nothing changes). */
    method WaitForRequest() returns (taken: bool)
      requires Valid()
      modifies this`requestQueued, this`busy
      ensures Valid()
      ensures taken == old(requestQueued)
      ensures taken ==> !requestQueued && busy
      ensures !taken ==> unchanged(this)
    {
      taken := requestQueued;
      if taken {
        requestQueued := false;
        busy := true;
      }
    }

    /** The transfer in run(): exactly one block moves, in the direction
        isWriting selects, and exactly one counter goes up. */
    method Transfer()
      requires Valid() && busy
      modifies this`readCount, this`writeCount, data, buffer
      ensures Valid()
      ensures isWriting ==>
        && Image() == WithBlock(old(Image()), targetBlock, old(Head(buffer[..])))
        && buffer[..] == old(buffer[..])
        && writeCount == old(writeCount) + 1 && readCount == old(readCount)
      ensures !isWriting ==>
        && buffer[..] == FillHead(old(buffer[..]), BlockOf(old(Image()), targetBlock))
        && Image() == old(Image())
        && readCount == old(readCount) + 1 && writeCount == old(writeCount)
    {
      if isWriting {
        ArrayCopy(buffer, 0, data, targetBlock * BlockSize, BlockSize);
        writeCount := writeCount + 1;
      } else {
        ArrayCopy(data, targetBlock * BlockSize, buffer, 0, BlockSize);
        readCount := readCount + 1;
      }
    }

    /** finishOperation(): idle again, head at the target. */
    method FinishOperation()
      requires Valid()
      modifies this`busy, this`currentBlock
      ensures Valid()
      ensures !busy && currentBlock == old(targetBlock)
    {
      busy := false;
      currentBlock := targetBlock;
    }

    /** One turn of run()'s loop: pick up the queued request, sleep for the
        seek, transfer, finish. Without a queued request the controller
        would wait and nothing happens. */
    method ServeOne() returns (served: bool, sleepTime: int)
      requires Valid() && !busy
      modifies this, data, buffer
      ensures Valid() && !busy && !requestQueued
      ensures served == old(requestQueued)
      ensures !served ==> unchanged(this) && unchanged(data) && (old(buffer) != null ==> unchanged(old(buffer)))
      ensures served ==> sleepTime == SeekTime(old(targetBlock), old(currentBlock))
      ensures served ==> currentBlock == old(targetBlock) && targetBlock == old(targetBlock)
      ensures served ==> RequestValid()
      ensures served && isWriting ==>
        && Image() == WithBlock(old(Image()), targetBlock, old(Head(buffer[..])))
        && writeCount == old(writeCount) + 1 && readCount == old(readCount)
      ensures served && !isWriting ==>
        && buffer[..] == FillHead(old(buffer[..]), BlockOf(old(Image()), targetBlock))
        && Image() == old(Image())
        && readCount == old(readCount) + 1 && writeCount == old(writeCount)
      ensures unchanged(this`isWriting, this`buffer, this`data)
    {
      sleepTime := 0;
      served := WaitForRequest();
      if served {
        sleepTime := SeekTime(targetBlock, currentBlock);
        Transfer();
        FinishOperation();
      }
    }
  }

  /** A begin* while a transfer runs is refused; the running request keeps
      its target and buffer. */
  method BeginWhileBusy(d: Disk, b: Int32, buf: array<byte>) returns (r: BeginOutcome, w: BeginOutcome)
    requires d.Valid() && d.busy && buf != d.data
    requires d.LegalRequest(b, buf)
    modifies d
    ensures r == WhileBusy && w == WhileBusy
    ensures d.busy && d.targetBlock == old(d.targetBlock) && d.buffer == old(d.buffer)
  {
    r := d.BeginRead(b, buf);
    w := d.BeginWrite(b, buf);
  }

  /** A second begin* after the first was recorded but before the controller
      picked it up is accepted and replaces the pending request. */
  method SecondBeginReplacesPending(d: Disk, b1: Int32, buf1: array<byte>, b2: Int32, buf2: array<byte>)
    returns (r1: BeginOutcome, r2: BeginOutcome)
    requires d.Valid() && !d.busy && buf1 != d.data && buf2 != d.data
    requires d.LegalRequest(b1, buf1) && d.LegalRequest(b2, buf2)
    modifies d
    ensures r1 == Accepted && r2 == Accepted
    ensures d.requestQueued && d.targetBlock == b2 && d.buffer == buf2 && !d.isWriting
  {
    r1 := d.BeginWrite(b1, buf1);
    r2 := d.BeginRead(b2, buf2);
  }
}
